/**
 * The blockhash near-duplicate renamer, in two versions: each image is hashed and compared
 * with every image recorded before it; for every earlier image within the confidence
 * distance it is moved next to that image under a numbered variant of its name. The
 * files are taken one at a time, in list order. Image decoding is a parameter.
 */
module ImageDedup {

  import opened Wrappers
  import opened FileSystem
  import Text
  import Blockhash

  const DefaultConfidence := 25
  const ArgumentException := "ArgumentException"
  const ArgumentOutOfRange := "ArgumentOutOfRangeException"

  datatype Version =
    | Command   // src/tom/Commands/ImageDuplicateBlockhashCommand.cs: earlier name, then stem_DUPE-01 + ext, ...
    | Program   // tom.img-blockdel/Program.cs: name up to its last '.', then _DUP1 + ext, _DUP2 + ext, ...

  /** An image recorded in the list: its hash and where it now is. */
  datatype Record = Record(hash: seq<bv8>, at: FilePath)

  /**
   * The k-th name tried next to `earlier` for a file with extension `ext`. The command first
   * tries the earlier file's own name; the program cannot cut a name without a '.', and
   * Substring(0, -1) throws.
   */
  function Candidate(v: Version, earlier: string, ext: string, k: nat): (r: Result<string, string>)
    ensures r.Failure? <==> v == Program && '.' !in earlier
  {
    match v
    case Command =>
      Success(if k == 0 then earlier else Stem(earlier) + "_DUPE-" + Text.TwoDigits(k) + ext)
    case Program =>
      var dot := Text.LastIndexOf(earlier, '.');
      if dot < 0 then Failure(ArgumentOutOfRange)
      else Success(earlier[..dot] + "_DUP" + Text.NatToString(k + 1) + ext)
  }

  /** Equal strings with a common prefix agree after it. */
  lemma AfterPrefix(prefix: string, x: string, y: string)
    requires prefix + x == prefix + y
    ensures x == y
  {
    assert x == (prefix + x)[|prefix|..];
    assert y == (prefix + y)[|prefix|..];
  }

  /** The same prefix and suffix around two middles: equal strings have equal middles. */
  lemma Middle(prefix: string, x: string, y: string, suffix: string)
    requires prefix + x + suffix == prefix + y + suffix
    ensures x == y
  {
    var s := prefix + x + suffix;
    assert s[|prefix|..|prefix| + |x|] == x;
    assert (prefix + y + suffix)[|prefix|..|prefix| + |y|] == y;
  }

  /** The command's first try, the earlier name itself, differs from all numbered tries. */
  lemma EarlierNameIsNotNumbered(earlier: string, ext: string, k: nat)
    requires k > 0
    ensures earlier != Stem(earlier) + "_DUPE-" + Text.TwoDigits(k) + ext
  {
    var stem, e := Stem(earlier), Extension(earlier);
    var numbered := stem + ("_DUPE-" + Text.TwoDigits(k) + ext);
    assert numbered == stem + "_DUPE-" + Text.TwoDigits(k) + ext;
    assert numbered[|stem|] == '_';
    if e != [] {
      assert earlier[|stem|] == e[0] == '.';
    } else {
      assert |earlier| == |stem| < |numbered|;
    }
  }

  /** No two tries propose the same name, so the collision loop ends. */
  lemma CandidateInjective(v: Version, earlier: string, ext: string, a: nat, b: nat)
    requires Candidate(v, earlier, ext, a).Success?
    requires Candidate(v, earlier, ext, a) == Candidate(v, earlier, ext, b)
    ensures a == b
  {
    match v
    case Command =>
      if a > 0 && b > 0 {
        Middle(Stem(earlier) + "_DUPE-", Text.TwoDigits(a), Text.TwoDigits(b), ext);
        Text.TwoDigitsInjective(a, b);
      } else if a > 0 {
        EarlierNameIsNotNumbered(earlier, ext, a);
      } else if b > 0 {
        EarlierNameIsNotNumbered(earlier, ext, b);
      }
    case Program =>
      var dot := Text.LastIndexOf(earlier, '.');
      Middle(earlier[..dot] + "_DUP", Text.NatToString(a + 1), Text.NatToString(b + 1), ext);
      Text.NatToStringInjective(a + 1, b + 1);
  }

  /** The hashes within the confidence distance of `hash`, as the loop over the list finds them. */
  predicate Near(r: Record, hash: seq<bv8>, confidence: int)
  {
    |r.hash| == |hash| && Blockhash.Distance(r.hash, hash) < confidence
  }

  /** The position of the last recorded image near `hash`: the file ends up next to it. */
  function LastNear(records: seq<Record>, hash: seq<bv8>, confidence: int): (r: Option<nat>)
    ensures r.Some? ==> r.value < |records| && Near(records[r.value], hash, confidence)
    ensures r.Some? ==> forall k :: r.value < k < |records| ==> !Near(records[k], hash, confidence)
    ensures r.None? ==> forall k :: 0 <= k < |records| ==> !Near(records[k], hash, confidence)
  {
    if records == [] then None
    else if Near(records[|records| - 1], hash, confidence) then Some(|records| - 1)
    else LastNear(records[..|records| - 1], hash, confidence)
  }

  /** The number of recorded images near `hash`: one move each. */
  function NearCount(records: seq<Record>, hash: seq<bv8>, confidence: int): (n: nat)
    ensures n <= |records|
  {
    if records == [] then 0
    else NearCount(records[..|records| - 1], hash, confidence) + (if Near(records[|records| - 1], hash, confidence) then 1 else 0)
  }

  lemma NearStep(records: seq<Record>, hash: seq<bv8>, confidence: int, i: int)
    requires 0 <= i < |records|
    ensures NearCount(records[..i + 1], hash, confidence)
      == NearCount(records[..i], hash, confidence) + (if Near(records[i], hash, confidence) then 1 else 0)
    ensures LastNear(records[..i + 1], hash, confidence)
      == if Near(records[i], hash, confidence) then Some(i) else LastNear(records[..i], hash, confidence)
  {
    assert records[..i + 1][..i] == records[..i];
  }

  /** A line "target <- source (dist:d)". */
  datatype Move = Move(target: FilePath, source: FilePath, distance: int)

  /**
   * One near match: find the first free try in the earlier image's directory and move the file
   * there from where it now is.
   */
  method MoveNextTo(vol: Volume, v: Version, earlier: FilePath, at: FilePath) returns (r: Result<FilePath, string>)
    requires at in vol.files
    modifies vol
    ensures r.Failure? ==> v == Program && '.' !in earlier.name && r.error == ArgumentOutOfRange && vol.files == old(vol.files)
    ensures r.Success? ==>
      && r.value.dir == earlier.dir
      && r.value !in old(vol.files)
      && Candidate(v, earlier.name, Extension(at.name), 0).Success?
      && vol.files == (old(vol.files) - {at})[r.value := old(vol.files)[at]]
  {
    var ext := Extension(at.name);
    if Candidate(v, earlier.name, ext, 0).Failure? {
      return Failure(ArgumentOutOfRange);
    }
    var candidate := (k: nat) => Candidate(v, earlier.name, ext, k).value;
    forall a: nat, b: nat | candidate(a) == candidate(b)
      ensures a == b
    {
      CandidateInjective(v, earlier.name, ext, a, b);
    }
    var tries := FirstFree(vol.files, earlier.dir, candidate);
    var target := FilePath(earlier.dir, candidate(tries));
    var moved := vol.MoveTo(at, target);
    return Success(target);
  }

  /**
   * One recorded image against the file now at `at`: the hashes must have the same length
   * (HammingDistance throws ArgumentException otherwise); a near one moves the file next to it.
   */
  method CompareOne(vol: Volume, v: Version, earlier: Record, hash: seq<bv8>, at: FilePath, confidence: int)
    returns (at': FilePath, move: seq<Move>, r: Result<(), string>)
    requires at in vol.files
    modifies vol
    ensures r.Failure? ==>
      || (r.error == ArgumentException && |earlier.hash| != |hash|)
      || (r.error == ArgumentOutOfRange && v == Program)
    ensures r.Failure? ==> at' == at && vol.files == old(vol.files)
    ensures r.Success? ==> |move| == (if Near(earlier, hash, confidence) then 1 else 0)
    ensures r.Success? && !Near(earlier, hash, confidence) ==> at' == at && vol.files == old(vol.files)
    ensures r.Success? && Near(earlier, hash, confidence) ==>
      && at'.dir == earlier.at.dir && at' !in old(vol.files)
      && vol.files == (old(vol.files) - {at})[at' := old(vol.files)[at]]
  {
    at', move, r := at, [], Success(());
    if |earlier.hash| != |hash| {
      r := Failure(ArgumentException);
      return;
    }
    var distance := Blockhash.Distance(earlier.hash, hash);
    if distance < confidence {
      var moved := MoveNextTo(vol, v, earlier.at, at);
      if moved.Failure? {
        r := Failure(moved.error);
        return;
      }
      move, at' := [Move(moved.value, at, distance)], moved.value;
    }
  }

  /**
   * The comparison section for one hashed file: every recorded image is compared in order; each
   * near one moves the file next to it. The file ends next to the last near image, or where it
   * was; nothing else moves.
   */
  method CompareAndMove(vol: Volume, v: Version, records: seq<Record>, hash: seq<bv8>, path: FilePath, confidence: int)
    returns (at: FilePath, moves: seq<Move>, r: Result<(), string>)
    requires path in vol.files
    modifies vol
    ensures r.Failure? ==> r.error == ArgumentException || (r.error == ArgumentOutOfRange && v == Program)
    ensures r.Failure? && r.error == ArgumentException ==> exists k :: 0 <= k < |records| && |records[k].hash| != |hash|
    ensures r.Success? ==> |moves| == NearCount(records, hash, confidence)
    ensures r.Success? ==> match LastNear(records, hash, confidence)
      case None => at == path
      case Some(k) => at.dir == records[k].at.dir
    ensures at == path || at !in old(vol.files)
    ensures vol.files == (old(vol.files) - {path})[at := old(vol.files)[path]]
  {
    at, moves, r := path, [], Success(());
    var bytes := vol.files[path];
    var i := 0;
    while i < |records|
      invariant 0 <= i <= |records| && r.Success?
      invariant |moves| == NearCount(records[..i], hash, confidence)
      invariant match LastNear(records[..i], hash, confidence)
        case None => at == path
        case Some(k) => at.dir == records[k].at.dir
      invariant at == path || at !in old(vol.files)
      invariant vol.files == (old(vol.files) - {path})[at := bytes]
    {
      NearStep(records, hash, confidence, i);
      var at', move;
      at', move, r := CompareOne(vol, v, records[i], hash, at, confidence);
      if r.Failure? {
        assert r.error == ArgumentException ==> |records[i].hash| != |hash|;
        return;
      }
      moves, at := moves + move, at';
      i := i + 1;
    }
    assert records[..i] == records;
  }

  /** A file is moved at all exactly when some recorded image is near it. */
  lemma {:induction false} NoMoveIffNoneNear(records: seq<Record>, hash: seq<bv8>, confidence: int)
    ensures NearCount(records, hash, confidence) == 0 <==> LastNear(records, hash, confidence).None?
    decreases |records|
  {
    if records != [] {
      NoMoveIffNoneNear(records[..|records| - 1], hash, confidence);
    }
  }

  /**
   * One file's turn, as the body handed to Parallel.ForEach: count its listed length, hash it
   * (a non-image is skipped without being recorded and without showing progress), compare
   * and move it, record it where it ended up, then show progress. `at` is where the file is
   * after the turn; a failed comparison leaves it wherever its last move put it, unrecorded.
   */
  method Turn(vol: Volume, v: Version, records: seq<Record>, path: FilePath, length: nat,
              blockhashOf: seq<bv8> -> Option<seq<bv8>>, confidence: int, showProgress: bool, seen: nat, total: nat)
    returns (records': seq<Record>, moves: seq<Move>, seen': nat, stop: Option<string>, ghost at: FilePath)
    modifies vol
    ensures seen' == seen + length
    ensures stop.Some? ==>
      || stop.value == FileNotFound
      || stop.value == ArgumentException
      || (stop.value == ArgumentOutOfRange && v == Program)
      || (stop.value == DivideByZero && showProgress && total == 0)
    ensures path !in old(vol.files) ==> stop == Some(FileNotFound) && records' == records && vol.files == old(vol.files)
    ensures path in old(vol.files) ==>
      && (at == path || at !in old(vol.files))
      && vol.files == (old(vol.files) - {path})[at := old(vol.files)[path]]
    ensures path in old(vol.files) && blockhashOf(old(vol.files)[path]).None? ==>
      stop.None? && records' == records && at == path
    ensures path in old(vol.files) && blockhashOf(old(vol.files)[path]).Some? ==>
      var hash := blockhashOf(old(vol.files)[path]).value;
      && records' == (if stop.None? || stop == Some(DivideByZero) then records + [Record(hash, at)] else records)
      && (|records'| > |records| ==>
            && |moves| == NearCount(records, hash, confidence)
            && match LastNear(records, hash, confidence)
               case None => at == path
               case Some(k) => at.dir == records[k].at.dir)
  {
    seen', records', moves, stop, at := seen + length, records, [], None, path;
    if path !in vol.files {
      stop := Some(FileNotFound);
      return;
    }
    var hash := blockhashOf(vol.files[path]);
    if hash.None? {
      return;
    }
    var to, r;
    to, moves, r := CompareAndMove(vol, v, records, hash.value, path, confidence);
    at := to;
    if r.Failure? {
      stop := Some(r.error);
      return;
    }
    records' := records + [Record(hash.value, to)];
    if showProgress && Percent(seen', total).Failure? {
      stop := Some(DivideByZero);
    }
  }

  /** Where the recorded images are. */
  ghost function Ats(records: seq<Record>): (locs: seq<FilePath>)
    ensures |locs| == |records|
  {
    seq(|records|, k requires 0 <= k < |records| => records[k].at)
  }

  /** The listed files that are images, in list order: the ones a run records. */
  ghost function Images(listed: Files, paths: seq<FilePath>, blockhashOf: seq<bv8> -> Option<seq<bv8>>): (images: seq<FilePath>)
    ensures |images| <= |paths|
  {
    if paths == [] then []
    else
      var last := paths[|paths| - 1];
      Images(listed, paths[..|paths| - 1], blockhashOf)
        + (if last in listed && blockhashOf(listed[last]).Some? then [last] else [])
  }

  lemma ImagesStep(listed: Files, paths: seq<FilePath>, blockhashOf: seq<bv8> -> Option<seq<bv8>>, i: int)
    requires 0 <= i < |paths|
    ensures Images(listed, paths[..i + 1], blockhashOf)
      == Images(listed, paths[..i], blockhashOf)
         + (if paths[i] in listed && blockhashOf(listed[paths[i]]).Some? then [paths[i]] else [])
  {
    assert paths[..i + 1][..i] == paths[..i];
  }

  /**
   * What the first `seen` turns have done: files not yet visited are as listed; and, when no
   * path is listed twice, record k is the image first listed at origins[k], with its hash, and
   * it is at records[k].at with its listed bytes.
   */
  ghost predicate Recorded(files: Files, listed: Files, paths: seq<FilePath>, seen: nat, records: seq<Record>,
                           origins: seq<FilePath>, blockhashOf: seq<bv8> -> Option<seq<bv8>>)
  {
    && seen <= |paths|
    && (forall p :: p in paths ==> p in listed)
    && Untouched(files, listed, paths[..seen])
    && |origins| == |records|
    && (Distinct(paths) ==>
          && (forall k :: 0 <= k < |records| ==> origins[k] in listed && blockhashOf(listed[origins[k]]) == Some(records[k].hash))
          && PlacedAt(files, listed, origins, Ats(records), paths[seen..]))
  }

  /** One turn, on the volume's contents before and after it, keeps Recorded. */
  lemma RecordStep(before: Files, after: Files, listed: Files, paths: seq<FilePath>, i: nat, records: seq<Record>,
                   records': seq<Record>, origins: seq<FilePath>, blockhashOf: seq<bv8> -> Option<seq<bv8>>, at: FilePath)
    requires i < |paths|
    requires Recorded(before, listed, paths, i, records, origins, blockhashOf)
    requires paths[i] !in before ==> records' == records && after == before
    requires paths[i] in before ==>
      && (at == paths[i] || at !in before)
      && after == (before - {paths[i]})[at := before[paths[i]]]
      && (blockhashOf(before[paths[i]]).None? ==> records' == records)
      && (blockhashOf(before[paths[i]]).Some? ==>
            records' == records || records' == records + [Record(blockhashOf(before[paths[i]]).value, at)])
    ensures paths[i] !in paths[..i] ==> paths[i] in before && before[paths[i]] == listed[paths[i]]
    ensures Recorded(after, listed, paths, i + 1, records', if |records'| > |records| then origins + [paths[i]] else origins,
                     blockhashOf)
  {
    var origins' := if |records'| > |records| then origins + [paths[i]] else origins;
    VisitKeeps(before, after, listed, paths, i);
    if Distinct(paths) {
      DistinctUnvisited(before, listed, paths, i);
      if |records'| > |records| {
        assert records'[..|records|] == records;
        assert Ats(records') == Ats(records) + [at];
        if at == paths[i] {
          assert after == before;
        }
        PlacedStep(before, after, listed, origins, Ats(records), paths[i], paths[i + 1..], at);
        forall k | 0 <= k < |records'|
          ensures origins'[k] in listed && blockhashOf(listed[origins'[k]]) == Some(records'[k].hash)
        {
          if k < |records| {
            assert origins'[k] == origins[k] && records'[k] == records[k];
          }
        }
      } else {
        PlacedAside(before, after, listed, origins, Ats(records), paths[i], paths[i + 1..], at);
      }
    }
  }

  /** Recorded's placement, spelled out. */
  lemma RecordsPlaced(files: Files, listed: Files, records: seq<Record>, origins: seq<FilePath>, future: seq<FilePath>)
    requires PlacedAt(files, listed, origins, Ats(records), future)
    ensures forall k :: 0 <= k < |records| ==>
      origins[k] in listed && records[k].at in files && files[records[k].at] == listed[origins[k]]
  {
    forall k | 0 <= k < |records|
      ensures origins[k] in listed && records[k].at in files && files[records[k].at] == listed[origins[k]]
    {
      assert Ats(records)[k] == records[k].at;
    }
  }

  /**
   * The run over the files listed up front, one at a time in list order. When no path is
   * listed twice, record k is the image listed at origins[k], with its hash, and it is at
   * records[k].at with the bytes it was listed with; a completed run records every image.
   */
  method Run(vol: Volume, v: Version, paths: seq<FilePath>, blockhashOf: seq<bv8> -> Option<seq<bv8>>,
             confidence: int, showProgress: bool)
    returns (records: seq<Record>, moves: seq<Move>, seenBytes: nat, r: Result<(), string>, ghost origins: seq<FilePath>)
    requires forall p :: p in paths ==> p in vol.files
    modifies vol
    ensures |records| <= |paths|
    ensures r.Success? ==> seenBytes == TotalBytes(old(vol.files), paths)
    ensures r.Failure? ==>
      || r.error == FileNotFound
      || r.error == ArgumentException
      || (r.error == ArgumentOutOfRange && v == Program)
      || (r.error == DivideByZero && showProgress && TotalBytes(old(vol.files), paths) == 0)
    ensures forall p :: p in old(vol.files) && p !in paths ==> p in vol.files && vol.files[p] == old(vol.files)[p]
    ensures Distinct(paths) ==> |origins| == |records| && forall k :: 0 <= k < |records| ==>
      && origins[k] in old(vol.files) && blockhashOf(old(vol.files)[origins[k]]) == Some(records[k].hash)
      && records[k].at in vol.files && vol.files[records[k].at] == old(vol.files)[origins[k]]
    ensures Distinct(paths) && r.Success? ==> origins == Images(old(vol.files), paths, blockhashOf)
  {
    var listed := vol.files;  // the lengths FileInfo read when the list was made
    var stop; ghost var seen;
    records, moves, seenBytes, stop, origins, seen := Visits(vol, v, paths, blockhashOf, confidence, showProgress, listed);
    UntouchedUnlisted(vol.files, listed, paths, seen);
    if Distinct(paths) {
      RecordsPlaced(vol.files, listed, records, origins, paths[seen..]);
    }
    r := if stop.Some? then Failure(stop.value) else Success(());
  }

  /** The loop of Run over the listing taken when the volume held `listed`; `seen` files had their turn. */
  method Visits(vol: Volume, v: Version, paths: seq<FilePath>, blockhashOf: seq<bv8> -> Option<seq<bv8>>,
                confidence: int, showProgress: bool, listed: Files)
    returns (records: seq<Record>, moves: seq<Move>, seenBytes: nat, stop: Option<string>,
             ghost origins: seq<FilePath>, ghost seen: nat)
    requires forall p :: p in paths ==> p in listed
    requires vol.files == listed
    modifies vol
    ensures |records| <= seen
    ensures stop.None? ==> seen == |paths| && seenBytes == TotalBytes(listed, paths)
    ensures stop.Some? ==>
      || stop.value == FileNotFound
      || stop.value == ArgumentException
      || (stop.value == ArgumentOutOfRange && v == Program)
      || (stop.value == DivideByZero && showProgress && TotalBytes(listed, paths) == 0)
    ensures Recorded(vol.files, listed, paths, seen, records, origins, blockhashOf)
    ensures stop.None? && Distinct(paths) ==> origins == Images(listed, paths, blockhashOf)
  {
    var total := TotalBytes(listed, paths);
    records, moves, seenBytes, stop, origins, seen := [], [], 0, None, [], 0;
    var i := 0;
    while i < |paths|
      invariant stop.None? && seen == i && |records| <= i
      invariant Recorded(vol.files, listed, paths, i, records, origins, blockhashOf)
      invariant seenBytes == TotalBytes(listed, paths[..i])
      invariant Distinct(paths) ==> origins == Images(listed, paths[..i], blockhashOf)
    {
      TotalBytesStep(listed, paths, i);
      ghost var before := vol.files;
      var records', turnMoves; ghost var at;
      records', turnMoves, seenBytes, stop, at :=
        Turn(vol, v, records, paths[i], |listed[paths[i]]|, blockhashOf, confidence, showProgress, seenBytes, total);
      RecordStep(before, vol.files, listed, paths, i, records, records', origins, blockhashOf, at);
      if Distinct(paths) && stop.None? {
        ImagesStep(listed, paths, blockhashOf, i);
      }
      origins := if |records'| > |records| then origins + [paths[i]] else origins;
      records, moves, seen := records', moves + turnMoves, i + 1;
      if stop.Some? {
        return;
      }
      i := i + 1;
    }
    assert paths[..i] == paths;
  }

  // ------------------------------------------------------------------ img-blockdel options

  const ArgumentNull := "ArgumentNullException"

  /** What the option parser hands over: the raw arguments, the non-option ones, and the switches. */
  datatype ParsedArgs = ParsedArgs(raw: seq<string>, dirs: seq<string>, confidence: Option<bv8>, hideProgress: bool)

  datatype Options = Options(sourceDirs: Option<seq<string>>, showProgress: bool, confidence: bv8)

  /** Options.ValidateOptions: the source directories are required; nothing else is checked. */
  function ValidateOptions(o: Options): (r: Result<bool, string>)
    ensures r.Failure? <==> o.sourceDirs.None?
    ensures r.Failure? ==> r.error == ArgumentNull
    ensures r.Success? ==> r.value
  {
    if o.sourceDirs.None? then Failure(ArgumentNull) else Success(true)
  }

  /** The process exits after printing help or reporting a bad argument. */
  datatype Parsed = Help | Rejected(error: string) | Parsed(options: Options)

  /**
   * ParseOptions: no arguments or a leading --help print help and exit; no directory is an
   * ArgumentNullException, reported before exiting; otherwise confidence 25 and progress on,
   * unless given.
   */
  function ParseOptions(args: ParsedArgs): (p: Parsed)
    ensures p.Help? <==> args.raw == [] || args.raw[0] == "--help"
    ensures !p.Help? ==> (p.Rejected? <==> args.dirs == [])
    ensures p.Rejected? ==> p.error == ArgumentNull
    ensures p.Parsed? ==>
      && p.options.sourceDirs == Some(args.dirs)
      && p.options.showProgress == !args.hideProgress
      && p.options.confidence == (if args.confidence.Some? then args.confidence.value else DefaultConfidence as bv8)
      && ValidateOptions(p.options) == Success(true)
  {
    if args.raw == [] || args.raw[0] == "--help" then Help
    else if args.dirs == [] then Rejected(ArgumentNull)
    else
      var options := Options(Some(args.dirs), !args.hideProgress,
                             if args.confidence.Some? then args.confidence.value else DefaultConfidence as bv8);
      match ValidateOptions(options)
      case Failure(e) => Rejected(e)
      case Success(_) => Parsed(options)
  }
}
