/**
 * The img-dimension command: every listed image that is too small is moved, under its own
 * name, into a `toss` directory beside it. Width and height together are one criterion;
 * failing that each of width, height and megapixels is tried in turn. An image is a decoded
 * (width, height) pair; decoding is a parameter, and a file that fails to decode is kept.
 */
module ImageDimensionFilter {

  import opened Wrappers
  import opened FileSystem
  import Arith

  /** Enumerable.Max over an empty listing. */
  const InvalidOperation := "InvalidOperationException"

  /** System.Drawing's Width and Height of a decoded image. */
  datatype Image = Image(width: nat, height: nat)

  /** GetMegapixels: the area in millions of pixels (a double in the source, a real here). */
  function Megapixels(img: Image): (mp: real)
    ensures mp >= 0.0
  {
    (img.width * img.height) as real / 1000000.0
  }

  /** A larger image in both dimensions has at least the area. */
  lemma MegapixelsMonotone(a: Image, b: Image)
    requires a.width <= b.width && a.height <= b.height
    ensures Megapixels(a) <= Megapixels(b)
  {
    Arith.MulMonotone(a.width, b.width, a.height);
    Arith.MulMonotone(a.height, b.height, b.width);
    assert a.width * a.height <= b.width * b.height;
  }

  /** Why an image goes to the toss directory, with the numbers the reason line shows. */
  datatype Reason =
    | NarrowerOrShorter(width: nat, height: nat, minWidth: int, minHeight: int)
    | Narrower(width: nat, minWidth: int)
    | Shorter(height: nat, minHeight: int)
    | Smaller(megapixels: real, minMegapixels: real)

  /**
   * The keep/toss chain: None keeps the file, Some(reason) tosses it. `img` is None when
   * Image.FromFile threw; the exception is reported and the file is kept.
   */
  function Toss(width: int, height: int, megapixels: real, img: Option<Image>): (r: Option<Reason>)
    ensures img.None? ==> r.None?
    ensures img.Some? && width > 0 && height > 0 ==>
      && (r.Some? <==> img.value.width < width || img.value.height < height)
      && (r.Some? ==> r.value.NarrowerOrShorter?)
    ensures img.Some? && !(width > 0 && height > 0) ==>
      (r.Some? <==>
        || (width > 0 && img.value.width < width)
        || (height > 0 && img.value.height < height)
        || (megapixels > 0.0 && Megapixels(img.value) < megapixels))
    ensures r.Some? && r.value.Narrower? ==> width > 0 && r.value.width < width
    ensures r.Some? && r.value.Shorter? ==>
      height > 0 && r.value.height < height && !(width > 0 && img.value.width < width)
    ensures r.Some? && r.value.Smaller? ==>
      && megapixels > 0.0 && r.value.megapixels < megapixels
      && !(width > 0 && img.value.width < width) && !(height > 0 && img.value.height < height)
  {
    match img
    case None => None
    case Some(i) =>
      if width > 0 && height > 0 then
        if i.width < width || i.height < height then Some(NarrowerOrShorter(i.width, i.height, width, height)) else None
      else if width > 0 && i.width < width then Some(Narrower(i.width, width))
      else if height > 0 && i.height < height then Some(Shorter(i.height, height))
      else if megapixels > 0.0 && Megapixels(i) < megapixels then Some(Smaller(Megapixels(i), megapixels))
      else None
  }

  /** The thresholds are minimums: an image at least as large as a kept one is kept too. */
  lemma LargerImageIsKept(width: int, height: int, megapixels: real, a: Image, b: Image)
    requires a.width <= b.width && a.height <= b.height
    requires Toss(width, height, megapixels, Some(a)).None?
    ensures Toss(width, height, megapixels, Some(b)).None?
  {
    MegapixelsMonotone(a, b);
  }

  /** Path.Combine(fileInfo.Directory.FullName, "toss"), then the file's own name. */
  function TossTarget(path: FilePath): (t: FilePath)
    ensures t.name == path.name && t.dir != path.dir
    ensures t.dir == Combine(path.dir, "toss")
  {
    CombineEndsWithName(path.dir, "toss");
    FilePath(Combine(path.dir, "toss"), path.name)
  }

  /** Where a visited file is after its turn: in its toss directory when tossed, else where it was. */
  function Where(path: FilePath, verdict: Option<Reason>): (at: FilePath)
    ensures at.name == path.name
    ensures at != path <==> verdict.Some?
  {
    if verdict.Some? then TossTarget(path) else path
  }

  /** Where the first |verdicts| listed files are after their turns. */
  ghost function Wheres(paths: seq<FilePath>, verdicts: seq<Option<Reason>>): (ats: seq<FilePath>)
    requires |verdicts| <= |paths|
    ensures |ats| == |verdicts|
  {
    if verdicts == [] then []
    else Wheres(paths, verdicts[..|verdicts| - 1]) + [Where(paths[|verdicts| - 1], verdicts[|verdicts| - 1])]
  }

  lemma {:induction false} WheresAt(paths: seq<FilePath>, verdicts: seq<Option<Reason>>, j: int)
    requires |verdicts| <= |paths| && 0 <= j < |verdicts|
    ensures Wheres(paths, verdicts)[j] == Where(paths[j], verdicts[j])
    decreases |verdicts|
  {
    var n := |verdicts| - 1;
    var init := Wheres(paths, verdicts[..n]);
    assert Wheres(paths, verdicts) == init + [Where(paths[n], verdicts[n])];
    if j < n {
      WheresAt(paths, verdicts[..n], j);
      assert verdicts[..n][j] == verdicts[j];
      assert (init + [Where(paths[n], verdicts[n])])[j] == init[j];
    }
  }

  /**
   * One file's turn: decide, and move a tossed file into its toss directory (CreateDirectory
   * makes the directory; directories are implicit here). A file already at the target makes
   * MoveTo throw IOException, which nothing catches.
   */
  method Visit(vol: Volume, width: int, height: int, megapixels: real, path: FilePath,
               imageOf: seq<bv8> -> Option<Image>)
    returns (tossed: Option<Reason>, r: Result<(), string>)
    modifies vol
    ensures tossed == Toss(width, height, megapixels, if path in old(vol.files) then imageOf(old(vol.files)[path]) else None)
    ensures tossed.None? ==> r.Success? && vol.files == old(vol.files)
    ensures tossed.Some? ==> (r.Success? <==> TossTarget(path) !in old(vol.files))
    ensures r.Failure? ==> r.error == IOException && vol.files == old(vol.files)
    ensures r.Success? && tossed.Some? ==>
      vol.files == (old(vol.files) - {path})[TossTarget(path) := old(vol.files)[path]]
    ensures forall p :: p in old(vol.files) && p != path ==> p in vol.files && vol.files[p] == old(vol.files)[p]
  {
    var img := if path in vol.files then imageOf(vol.files[path]) else None;
    tossed, r := Toss(width, height, megapixels, img), Success(());
    if tossed.Some? {
      r := vol.MoveTo(path, TossTarget(path));
    }
  }

  /**
   * Handle, with the listing taken up front and the files visited one at a time. The longest
   * full name is measured first, so an empty listing throws; progress is shown unless quiet.
   * `verdicts[j]` is the decision for the j-th listed file; a file's first visit decides on
   * the bytes it had when listed.
   */
  method Run(vol: Volume, width: int, height: int, megapixels: real, paths: seq<FilePath>,
             imageOf: seq<bv8> -> Option<Image>, quiet: bool)
    returns (verdicts: seq<Option<Reason>>, seenBytes: nat, r: Result<(), string>)
    requires forall p :: p in paths ==> p in vol.files
    modifies vol
    ensures paths == [] ==> r == Failure(InvalidOperation)
    ensures |verdicts| <= |paths|
    ensures r.Success? ==> |verdicts| == |paths| && seenBytes == TotalBytes(old(vol.files), paths)
    ensures r.Failure? ==>
      || (r.error == InvalidOperation && paths == [])
      || r.error == IOException
      || (r.error == DivideByZero && !quiet && TotalBytes(old(vol.files), paths) == 0)
    ensures forall j :: 0 <= j < |verdicts| && paths[j] !in paths[..j] ==>
      verdicts[j] == Toss(width, height, megapixels, imageOf(old(vol.files)[paths[j]]))
    ensures forall p :: p in old(vol.files) && p !in paths ==> p in vol.files && vol.files[p] == old(vol.files)[p]
    ensures Distinct(paths) ==> forall j :: 0 <= j < |verdicts| && (j < |verdicts| - 1 || r.Success? || r.error != IOException) ==>
      Where(paths[j], verdicts[j]) in vol.files && vol.files[Where(paths[j], verdicts[j])] == old(vol.files)[paths[j]]
  {
    verdicts, seenBytes := [], 0;
    if paths == [] {
      return verdicts, seenBytes, Failure(InvalidOperation);
    }
    var listed := vol.files;  // the lengths FileInfo read when the list was made
    var stop; ghost var placed;
    verdicts, seenBytes, stop, placed := Visits(vol, width, height, megapixels, paths, imageOf, quiet, listed);
    UntouchedUnlisted(vol.files, listed, paths, |verdicts|);
    if Distinct(paths) {
      WheresPlaced(vol.files, listed, paths, verdicts, placed);
    }
    r := if stop.Some? then Failure(stop.value) else Success(());
  }

  /**
   * The loop of Run over the listing taken when the volume held `listed`. The first `placed`
   * files have had their turn completed: all of them, or all but the one whose move threw.
   */
  method Visits(vol: Volume, width: int, height: int, megapixels: real, paths: seq<FilePath>,
                imageOf: seq<bv8> -> Option<Image>, quiet: bool, listed: Files)
    returns (verdicts: seq<Option<Reason>>, seenBytes: nat, stop: Option<string>, ghost placed: nat)
    requires forall p :: p in paths ==> p in listed
    requires vol.files == listed
    modifies vol
    ensures stop.None? ==> |verdicts| == |paths| && seenBytes == TotalBytes(listed, paths)
    ensures stop.Some? ==> stop.value == IOException || (stop.value == DivideByZero && !quiet && TotalBytes(listed, paths) == 0)
    ensures placed == if stop == Some(IOException) then |verdicts| - 1 else |verdicts|
    ensures Progress(vol.files, listed, paths, verdicts, placed, width, height, megapixels, imageOf)
  {
    var total := TotalBytes(listed, paths);
    verdicts, seenBytes, stop, placed := [], 0, None, 0;
    while |verdicts| < |paths|
      invariant stop.None? && placed == |verdicts|
      invariant Progress(vol.files, listed, paths, verdicts, placed, width, height, megapixels, imageOf)
      invariant seenBytes == TotalBytes(listed, paths[..|verdicts|])
      decreases |paths| - |verdicts|
    {
      TotalBytesStep(listed, paths, |verdicts|);
      verdicts, seenBytes, stop, placed := Step(vol, width, height, megapixels, imageOf, quiet, listed, paths, total, verdicts, seenBytes);
      if stop.Some? {
        return;
      }
    }
    assert paths[..|verdicts|] == paths;
  }

  /**
   * What the turns so far have done: the first visit of each file decided on the bytes it had
   * when listed; files not yet visited are as listed; and, when no path is listed twice, each
   * of the first `placed` files is where its verdict put it and holds its listed bytes.
   */
  ghost predicate Progress(files: Files, listed: Files, paths: seq<FilePath>, verdicts: seq<Option<Reason>>, placed: nat,
                           width: int, height: int, megapixels: real, imageOf: seq<bv8> -> Option<Image>)
  {
    && placed <= |verdicts| <= |paths|
    && (forall p :: p in paths ==> p in listed)
    && Decided(verdicts, listed, paths, width, height, megapixels, imageOf)
    && Untouched(files, listed, paths[..|verdicts|])
    && (Distinct(paths) ==> PlacedAt(files, listed, paths[..placed], Wheres(paths, verdicts[..placed]), paths[placed..]))
  }

  /** PlacedAt for the first `placed` verdicts, spelled out: each such file is where its verdict put it. */
  lemma WheresPlaced(files: Files, listed: Files, paths: seq<FilePath>, verdicts: seq<Option<Reason>>, placed: nat)
    requires placed <= |verdicts| <= |paths| && forall p :: p in paths ==> p in listed
    requires PlacedAt(files, listed, paths[..placed], Wheres(paths, verdicts[..placed]), paths[placed..])
    ensures forall j :: 0 <= j < placed ==>
      Where(paths[j], verdicts[j]) in files && files[Where(paths[j], verdicts[j])] == listed[paths[j]]
  {
    forall j | 0 <= j < placed
      ensures Where(paths[j], verdicts[j]) in files && files[Where(paths[j], verdicts[j])] == listed[paths[j]]
    {
      WheresAt(paths, verdicts[..placed], j);
      assert paths[..placed][j] == paths[j] && verdicts[..placed][j] == verdicts[j];
    }
  }

  /** The decisions so far: a file's first visit decided on the bytes it had when listed. */
  ghost predicate Decided(verdicts: seq<Option<Reason>>, listed: Files, paths: seq<FilePath>,
                          width: int, height: int, megapixels: real, imageOf: seq<bv8> -> Option<Image>)
    requires |verdicts| <= |paths| && forall p :: p in paths ==> p in listed
  {
    forall j :: 0 <= j < |verdicts| && paths[j] !in paths[..j] ==>
      verdicts[j] == Toss(width, height, megapixels, imageOf(listed[paths[j]]))
  }

  lemma DecidedStep(verdicts: seq<Option<Reason>>, listed: Files, paths: seq<FilePath>,
                    width: int, height: int, megapixels: real, imageOf: seq<bv8> -> Option<Image>, tossed: Option<Reason>)
    requires |verdicts| < |paths| && forall p :: p in paths ==> p in listed
    requires Decided(verdicts, listed, paths, width, height, megapixels, imageOf)
    requires paths[|verdicts|] !in paths[..|verdicts|] ==>
      tossed == Toss(width, height, megapixels, imageOf(listed[paths[|verdicts|]]))
    ensures Decided(verdicts + [tossed], listed, paths, width, height, megapixels, imageOf)
  {
  }

  /** A turn, on the volume's contents before and after it, keeps Progress. */
  lemma ProgressStep(before: Files, after: Files, listed: Files, paths: seq<FilePath>, verdicts: seq<Option<Reason>>,
                     tossed: Option<Reason>, moved: bool,
                     width: int, height: int, megapixels: real, imageOf: seq<bv8> -> Option<Image>)
    requires |verdicts| < |paths|
    requires Progress(before, listed, paths, verdicts, |verdicts|, width, height, megapixels, imageOf)
    requires tossed == Toss(width, height, megapixels, if paths[|verdicts|] in before then imageOf(before[paths[|verdicts|]]) else None)
    requires !moved || tossed.None? ==> after == before
    requires moved && tossed.Some? ==>
      paths[|verdicts|] in before && TossTarget(paths[|verdicts|]) !in before &&
      after == (before - {paths[|verdicts|]})[TossTarget(paths[|verdicts|]) := before[paths[|verdicts|]]]
    ensures Progress(after, listed, paths, verdicts + [tossed], if moved then |verdicts| + 1 else |verdicts|,
                     width, height, megapixels, imageOf)
  {
    var i := |verdicts|;
    var verdicts' := verdicts + [tossed];
    VisitKeeps(before, after, listed, paths, i);
    DecidedStep(verdicts, listed, paths, width, height, megapixels, imageOf, tossed);
    assert verdicts'[..i] == verdicts && verdicts[..i] == verdicts;
    if Distinct(paths) {
      PlacedProgress(before, after, listed, paths, verdicts, tossed, moved);
    }
  }

  /** The placement part of ProgressStep: a moved file is placed where its verdict says. */
  lemma PlacedProgress(before: Files, after: Files, listed: Files, paths: seq<FilePath>, verdicts: seq<Option<Reason>>,
                       tossed: Option<Reason>, moved: bool)
    requires |verdicts| < |paths| && (forall p :: p in paths ==> p in listed) && Distinct(paths)
    requires Untouched(before, listed, paths[..|verdicts|])
    requires PlacedAt(before, listed, paths[..|verdicts|], Wheres(paths, verdicts), paths[|verdicts|..])
    requires !moved || tossed.None? ==> after == before
    requires moved && tossed.Some? ==>
      paths[|verdicts|] in before && TossTarget(paths[|verdicts|]) !in before &&
      after == (before - {paths[|verdicts|]})[TossTarget(paths[|verdicts|]) := before[paths[|verdicts|]]]
    ensures var n := if moved then |verdicts| + 1 else |verdicts|;
      PlacedAt(after, listed, paths[..n], Wheres(paths, (verdicts + [tossed])[..n]), paths[n..])
  {
    var i := |verdicts|;
    var verdicts' := verdicts + [tossed];
    assert verdicts'[..i] == verdicts;
    if moved {
      assert verdicts'[..i + 1] == verdicts';
      DistinctUnvisited(before, listed, paths, i);
      PlacedStep(before, after, listed, paths[..i], Wheres(paths, verdicts), paths[i], paths[i + 1..], Where(paths[i], tossed));
      assert paths[..i + 1] == paths[..i] + [paths[i]];
    }
  }

  /** The turn of the next listed file: count it, visit it, show progress. */
  method Step(vol: Volume, width: int, height: int, megapixels: real, imageOf: seq<bv8> -> Option<Image>, quiet: bool,
              listed: Files, paths: seq<FilePath>, total: nat, verdicts: seq<Option<Reason>>, seenBytes: nat)
    returns (verdicts': seq<Option<Reason>>, seenBytes': nat, stop: Option<string>, ghost placed: nat)
    requires |verdicts| < |paths|
    requires Progress(vol.files, listed, paths, verdicts, |verdicts|, width, height, megapixels, imageOf)
    modifies vol
    ensures |verdicts'| == |verdicts| + 1 && seenBytes' == seenBytes + |listed[paths[|verdicts|]]|
    ensures stop.Some? ==> stop.value == IOException || (stop.value == DivideByZero && !quiet && total == 0)
    ensures placed == if stop == Some(IOException) then |verdicts| else |verdicts'|
    ensures Progress(vol.files, listed, paths, verdicts', placed, width, height, megapixels, imageOf)
  {
    var i := |verdicts|;
    seenBytes', stop := seenBytes + |listed[paths[i]]|, None;
    var before := vol.files;
    var tossed, r := Visit(vol, width, height, megapixels, paths[i], imageOf);
    ProgressStep(before, vol.files, listed, paths, verdicts, tossed, r.Success?, width, height, megapixels, imageOf);
    verdicts' := verdicts + [tossed];
    placed := if r.Failure? then i else i + 1;
    if r.Failure? {
      stop := Some(r.error);
    } else if !quiet && Percent(seenBytes', total).Failure? {
      stop := Some(DivideByZero);
    }
  }
}

/**
 * img-dimdel: the same filter as a stand-alone tool with its own options. It keeps an image
 * that meets the thresholds and moves the others, under their own names, into one directory
 * (DIR/toss unless given).
 */
module ImageDimensionDelete {

  import opened Wrappers
  import opened FileSystem
  import opened ImageDimensionFilter

  const ArgumentNull := "ArgumentNullException"
  const ArgumentException := "ArgumentException"
  /** What Image.FromFile throws for bytes that are not an image; DoTheThing does not catch it. */
  const OutOfMemory := "OutOfMemoryException"
  /** The refusal of the corrected option handling; the source's message is its log line. */
  const InvalidCombination := "ARGS: Combination of width, height, and megapixels is invalid."

  const DefaultMegapixels := 0.5

  /** Options after parsing. Width and Height are unsigned. MoveToDir is always set by parsing. */
  datatype Options = Options(sourceDir: Option<string>, width: nat, height: nat, megapixels: real,
                             moveToDir: string, showProgress: bool)

  /**
   * ValidateOptions: the source directory is required; some threshold must be positive.
   * (A missing MoveToDir is created; directories are implicit here.)
   */
  function ValidateOptions(o: Options): (r: Result<bool, string>)
    ensures r.Failure? <==> o.sourceDir.None?
    ensures r.Failure? ==> r.error == ArgumentNull
    ensures r.Success? ==> (r.value <==> o.width > 0 || o.height > 0 || o.megapixels > 0.0)
  {
    if o.sourceDir.None? then Failure(ArgumentNull)
    else if o.width == 0 && o.height == 0 && o.megapixels <= 0.0 then Success(false)
    else Success(true)
  }

  /** ShouldKeepImage. */
  function ShouldKeepImage(o: Options, img: Image): (keep: bool)
    ensures o.width > 0 && o.height > 0 ==> (keep <==> img.width >= o.width && img.height >= o.height)
    ensures !(o.width > 0 && o.height > 0) ==>
      (keep <==>
        && !(o.width > 0 && img.width < o.width)
        && !(o.height > 0 && img.height < o.height)
        && Megapixels(img) > o.megapixels)
  {
    if o.width > 0 && o.height > 0 then img.width >= o.width && img.height >= o.height
    else if o.width > 0 && img.width < o.width then false
    else if o.height > 0 && img.height < o.height then false
    else Megapixels(img) > o.megapixels
  }

  /** The three parts of the reason line: "wi ...", "he ..." and "mp ...". */
  datatype Criterion =
    | WidthBelow(width: nat, minWidth: nat)
    | HeightBelow(height: nat, minHeight: nat)
    | MegapixelsBelow(megapixels: real, minMegapixels: real)

  /** WhyNotKeepImage as written: the megapixel part only when the area is strictly below a positive threshold. */
  function WhyNotKeepImageAsWritten(o: Options, img: Image): (why: seq<Criterion>)
    ensures WidthBelow(img.width, o.width) in why <==> o.width > 0 && img.width < o.width
    ensures HeightBelow(img.height, o.height) in why <==> o.height > 0 && img.height < o.height
    ensures MegapixelsBelow(Megapixels(img), o.megapixels) in why <==> o.megapixels > 0.0 && Megapixels(img) < o.megapixels
    ensures |why| <= 3
  {
    (if o.width > 0 && img.width < o.width then [WidthBelow(img.width, o.width)] else [])
    + (if o.height > 0 && img.height < o.height then [HeightBelow(img.height, o.height)] else [])
    + (if o.megapixels > 0.0 && Megapixels(img) < o.megapixels then [MegapixelsBelow(Megapixels(img), o.megapixels)] else [])
  }

  /**
   * An image of exactly the threshold area is moved, since ShouldKeepImage keeps only a
   * strictly larger one, yet the reason line is empty.
   */
  lemma ThresholdImageGetsNoReason()
    ensures var o, img := Options(Some("D"), 0, 0, DefaultMegapixels, "D\\toss", true), Image(1000, 500);
      !ShouldKeepImage(o, img) && WhyNotKeepImageAsWritten(o, img) == []
  {
    var o, img := Options(Some("D"), 0, 0, DefaultMegapixels, "D\\toss", true), Image(1000, 500);
    assert Megapixels(img) == 0.5;
  }

  /**
   * WhyNotKeepImage, corrected: the megapixel part appears exactly when the area is not above
   * the threshold, which is the test ShouldKeepImage applies.
   */
  function WhyNotKeepImage(o: Options, img: Image): (why: seq<Criterion>)
    ensures WidthBelow(img.width, o.width) in why <==> o.width > 0 && img.width < o.width
    ensures HeightBelow(img.height, o.height) in why <==> o.height > 0 && img.height < o.height
    ensures MegapixelsBelow(Megapixels(img), o.megapixels) in why <==> !(Megapixels(img) > o.megapixels)
    ensures |why| <= 3
  {
    (if o.width > 0 && img.width < o.width then [WidthBelow(img.width, o.width)] else [])
    + (if o.height > 0 && img.height < o.height then [HeightBelow(img.height, o.height)] else [])
    + (if !(Megapixels(img) > o.megapixels) then [MegapixelsBelow(Megapixels(img), o.megapixels)] else [])
  }

  /** Every image that is moved is given a reason. */
  lemma MovedImageHasReason(o: Options, img: Image)
    requires !ShouldKeepImage(o, img)
    ensures WhyNotKeepImage(o, img) != []
  {
    if o.width > 0 && img.width < o.width {
      assert WidthBelow(img.width, o.width) in WhyNotKeepImage(o, img);
    } else if o.height > 0 && img.height < o.height {
      assert HeightBelow(img.height, o.height) in WhyNotKeepImage(o, img);
    } else {
      assert MegapixelsBelow(Megapixels(img), o.megapixels) in WhyNotKeepImage(o, img);
    }
  }

  /** With both dimensions set, the tool and the command keep the same images. */
  lemma AgreesWithCommandOnBothDimensions(o: Options, megapixels: real, img: Image)
    requires o.width > 0 && o.height > 0
    ensures ShouldKeepImage(o, img) <==> Toss(o.width, o.height, megapixels, Some(img)).None?
  {
  }

  /**
   * Otherwise, with a positive area threshold, they disagree only on an image of exactly the
   * threshold area: the command keeps it and the tool moves it.
   */
  lemma AgreesWithCommandOffTheBoundary(o: Options, img: Image)
    requires !(o.width > 0 && o.height > 0) && o.megapixels > 0.0
    ensures Megapixels(img) != o.megapixels ==>
      (ShouldKeepImage(o, img) <==> Toss(o.width, o.height, o.megapixels, Some(img)).None?)
    ensures Megapixels(img) == o.megapixels ==>
      !ShouldKeepImage(o, img) && (Toss(o.width, o.height, o.megapixels, Some(img)).None? <==>
        !(o.width > 0 && img.width < o.width) && !(o.height > 0 && img.height < o.height))
  {
  }

  /** What DoTheThing did with one file. */
  datatype Outcome =
    | Kept
    | Moved(target: FilePath, why: seq<Criterion>)
    | Logged(error: string)   // an IOException or ArgumentException, written to the error log

  /**
   * DoTheThing: load the image; keep it, or log why not and move it into MoveToDir under its
   * name. An IOException (a missing file, a taken target) is logged and the run goes on; bytes
   * that are not an image throw OutOfMemoryException, which ends the run.
   */
  method DoTheThing(vol: Volume, o: Options, path: FilePath, imageOf: seq<bv8> -> Option<Image>)
    returns (outcome: Outcome, r: Result<(), string>)
    modifies vol
    ensures path !in old(vol.files) ==> outcome == Logged(FileNotFound) && r.Success?
    ensures path in old(vol.files) && imageOf(old(vol.files)[path]).None? ==> r == Failure(OutOfMemory)
    ensures r.Failure? ==> r.error == OutOfMemory && vol.files == old(vol.files)
    ensures r.Success? && path in old(vol.files) ==> imageOf(old(vol.files)[path]).Some?
    ensures r.Success? && path in old(vol.files) && imageOf(old(vol.files)[path]).Some? ==>
      var img := imageOf(old(vol.files)[path]).value;
      && (outcome.Kept? <==> ShouldKeepImage(o, img))
      && (outcome.Moved? ==> outcome == Moved(FilePath(o.moveToDir, path.name), WhyNotKeepImage(o, img)))
      && (outcome.Logged? ==> outcome.error == IOException && FilePath(o.moveToDir, path.name) in old(vol.files))
    ensures outcome.Moved? ==>
      path in old(vol.files) && outcome.target !in old(vol.files) &&
      vol.files == (old(vol.files) - {path})[outcome.target := old(vol.files)[path]]
    ensures !outcome.Moved? ==> vol.files == old(vol.files)
    ensures forall p :: p in old(vol.files) && p != path ==> p in vol.files && vol.files[p] == old(vol.files)[p]
  {
    if path !in vol.files {
      return Logged(FileNotFound), Success(());
    }
    var img := imageOf(vol.files[path]);
    if img.None? {
      return Kept, Failure(OutOfMemory);
    }
    if ShouldKeepImage(o, img.value) {
      return Kept, Success(());
    }
    var why := WhyNotKeepImage(o, img.value);
    var target := FilePath(o.moveToDir, path.name);
    var moved := vol.MoveTo(path, target);
    if moved.Failure? {
      return Logged(moved.error), Success(());
    }
    return Moved(target, why), Success(());
  }

  /** Where a file is after DoTheThing: at its target when moved, else where it was. */
  function Destination(path: FilePath, outcome: Outcome): (at: FilePath)
    ensures outcome.Moved? ==> at == outcome.target
    ensures !outcome.Moved? ==> at == path
  {
    if outcome.Moved? then outcome.target else path
  }

  /** Where the first |outcomes| listed files are after their turns. */
  ghost function Destinations(paths: seq<FilePath>, outcomes: seq<Outcome>): (ats: seq<FilePath>)
    requires |outcomes| <= |paths|
    ensures |ats| == |outcomes|
  {
    if outcomes == [] then []
    else Destinations(paths, outcomes[..|outcomes| - 1]) + [Destination(paths[|outcomes| - 1], outcomes[|outcomes| - 1])]
  }

  lemma {:induction false} DestinationsAt(paths: seq<FilePath>, outcomes: seq<Outcome>, j: int)
    requires |outcomes| <= |paths| && 0 <= j < |outcomes|
    ensures Destinations(paths, outcomes)[j] == Destination(paths[j], outcomes[j])
    decreases |outcomes|
  {
    var n := |outcomes| - 1;
    var init := Destinations(paths, outcomes[..n]);
    assert Destinations(paths, outcomes) == init + [Destination(paths[n], outcomes[n])];
    if j < n {
      DestinationsAt(paths, outcomes[..n], j);
      assert outcomes[..n][j] == outcomes[j];
      assert (init + [Destination(paths[n], outcomes[n])])[j] == init[j];
    }
  }

  /**
   * Run: every file of the source directory, listed up front, one at a time; progress is
   * shown when asked for. `outcomes[j]` is what happened to the j-th listed file; when no
   * path is listed twice, each of them is at its Destination with the bytes it was listed with.
   */
  method Run(vol: Volume, o: Options, paths: seq<FilePath>, imageOf: seq<bv8> -> Option<Image>)
    returns (outcomes: seq<Outcome>, seenBytes: nat, r: Result<(), string>)
    requires forall p :: p in paths ==> p in vol.files
    modifies vol
    ensures |outcomes| <= |paths|
    ensures r.Success? ==> |outcomes| == |paths| && seenBytes == TotalBytes(old(vol.files), paths)
    ensures r.Failure? ==>
      || r.error == OutOfMemory
      || (r.error == DivideByZero && o.showProgress && TotalBytes(old(vol.files), paths) == 0)
    ensures forall j :: 0 <= j < |outcomes| && paths[j] !in paths[..j] ==>
      imageOf(old(vol.files)[paths[j]]).Some? &&
      (outcomes[j].Kept? <==> ShouldKeepImage(o, imageOf(old(vol.files)[paths[j]]).value)) &&
      (outcomes[j].Moved? ==> outcomes[j].target == FilePath(o.moveToDir, paths[j].name))
    ensures forall p :: p in old(vol.files) && p !in paths ==> p in vol.files && vol.files[p] == old(vol.files)[p]
    ensures Distinct(paths) ==> forall j :: 0 <= j < |outcomes| ==>
      Destination(paths[j], outcomes[j]) in vol.files && vol.files[Destination(paths[j], outcomes[j])] == old(vol.files)[paths[j]]
  {
    var listed := vol.files;  // the lengths FileInfo read when the list was made
    var stop;
    outcomes, seenBytes, stop := Visits(vol, o, paths, imageOf, listed);
    UntouchedUnlisted(vol.files, listed, paths, |outcomes|);
    if Distinct(paths) {
      DestinationsPlaced(vol.files, listed, paths, outcomes);
    }
    r := if stop.Some? then Failure(stop.value) else Success(());
  }

  /** The loop of Run over the listing taken when the volume held `listed`. */
  method Visits(vol: Volume, o: Options, paths: seq<FilePath>, imageOf: seq<bv8> -> Option<Image>, listed: Files)
    returns (outcomes: seq<Outcome>, seenBytes: nat, stop: Option<string>)
    requires forall p :: p in paths ==> p in listed
    requires vol.files == listed
    modifies vol
    ensures stop.None? ==> |outcomes| == |paths| && seenBytes == TotalBytes(listed, paths)
    ensures stop.Some? ==> stop.value == OutOfMemory || (stop.value == DivideByZero && o.showProgress && TotalBytes(listed, paths) == 0)
    ensures Done(vol.files, listed, paths, outcomes, o, imageOf)
  {
    var total := TotalBytes(listed, paths);
    outcomes, seenBytes, stop := [], 0, None;
    while |outcomes| < |paths|
      invariant stop.None?
      invariant Done(vol.files, listed, paths, outcomes, o, imageOf)
      invariant seenBytes == TotalBytes(listed, paths[..|outcomes|])
      decreases |paths| - |outcomes|
    {
      TotalBytesStep(listed, paths, |outcomes|);
      outcomes, seenBytes, stop := Step(vol, o, imageOf, listed, paths, total, outcomes, seenBytes);
      if stop.Some? {
        return;
      }
    }
    assert paths[..|outcomes|] == paths;
  }

  /** The outcomes so far: on a file's first visit, the listed bytes were an image, kept exactly when it qualifies. */
  ghost predicate Settled(outcomes: seq<Outcome>, listed: Files, paths: seq<FilePath>, o: Options,
                          imageOf: seq<bv8> -> Option<Image>)
    requires |outcomes| <= |paths| && forall p :: p in paths ==> p in listed
  {
    forall j :: 0 <= j < |outcomes| && paths[j] !in paths[..j] ==>
      && imageOf(listed[paths[j]]).Some?
      && (outcomes[j].Kept? <==> ShouldKeepImage(o, imageOf(listed[paths[j]]).value))
      && (outcomes[j].Moved? ==> outcomes[j].target == FilePath(o.moveToDir, paths[j].name))
  }

  /**
   * What the turns so far have done: Settled; files not yet visited are as listed; and, when
   * no path is listed twice, each visited file is at its Destination with its listed bytes.
   */
  ghost predicate Done(files: Files, listed: Files, paths: seq<FilePath>, outcomes: seq<Outcome>, o: Options,
                       imageOf: seq<bv8> -> Option<Image>)
  {
    && |outcomes| <= |paths|
    && (forall p :: p in paths ==> p in listed)
    && Settled(outcomes, listed, paths, o, imageOf)
    && Untouched(files, listed, paths[..|outcomes|])
    && (Distinct(paths) ==> PlacedAt(files, listed, paths[..|outcomes|], Destinations(paths, outcomes), paths[|outcomes|..]))
  }

  /** Done's placement, spelled out. */
  lemma DestinationsPlaced(files: Files, listed: Files, paths: seq<FilePath>, outcomes: seq<Outcome>)
    requires |outcomes| <= |paths| && forall p :: p in paths ==> p in listed
    requires PlacedAt(files, listed, paths[..|outcomes|], Destinations(paths, outcomes), paths[|outcomes|..])
    ensures forall j :: 0 <= j < |outcomes| ==>
      Destination(paths[j], outcomes[j]) in files && files[Destination(paths[j], outcomes[j])] == listed[paths[j]]
  {
    forall j | 0 <= j < |outcomes|
      ensures Destination(paths[j], outcomes[j]) in files && files[Destination(paths[j], outcomes[j])] == listed[paths[j]]
    {
      DestinationsAt(paths, outcomes, j);
      assert paths[..|outcomes|][j] == paths[j];
    }
  }

  lemma SettledStep(outcomes: seq<Outcome>, listed: Files, paths: seq<FilePath>, o: Options,
                    imageOf: seq<bv8> -> Option<Image>, outcome: Outcome)
    requires |outcomes| < |paths| && forall p :: p in paths ==> p in listed
    requires Settled(outcomes, listed, paths, o, imageOf)
    requires paths[|outcomes|] !in paths[..|outcomes|] ==>
      var img := imageOf(listed[paths[|outcomes|]]);
      && img.Some?
      && (outcome.Kept? <==> ShouldKeepImage(o, img.value))
      && (outcome.Moved? ==> outcome.target == FilePath(o.moveToDir, paths[|outcomes|].name))
    ensures Settled(outcomes + [outcome], listed, paths, o, imageOf)
  {
    var outcomes' := outcomes + [outcome];
    forall j | 0 <= j < |outcomes'| && paths[j] !in paths[..j]
      ensures imageOf(listed[paths[j]]).Some?
    {
      if j < |outcomes| {
        assert outcomes'[j] == outcomes[j];
      }
    }
  }

  /** A completed DoTheThing, on the volume's contents before and after it, keeps Done. */
  lemma DoneStep(before: Files, after: Files, listed: Files, paths: seq<FilePath>, outcomes: seq<Outcome>,
                 outcome: Outcome, o: Options, imageOf: seq<bv8> -> Option<Image>)
    requires |outcomes| < |paths|
    requires Done(before, listed, paths, outcomes, o, imageOf)
    requires paths[|outcomes|] in before ==>
      var img := imageOf(before[paths[|outcomes|]]);
      && img.Some?
      && (outcome.Kept? <==> ShouldKeepImage(o, img.value))
      && (outcome.Moved? ==> outcome.target == FilePath(o.moveToDir, paths[|outcomes|].name))
    requires outcome.Moved? ==>
      paths[|outcomes|] in before && outcome.target !in before &&
      after == (before - {paths[|outcomes|]})[outcome.target := before[paths[|outcomes|]]]
    requires !outcome.Moved? ==> after == before
    ensures Done(after, listed, paths, outcomes + [outcome], o, imageOf)
  {
    var i := |outcomes|;
    VisitKeeps(before, after, listed, paths, i);
    SettledStep(outcomes, listed, paths, o, imageOf, outcome);
    if Distinct(paths) {
      DestinationsStep(before, after, listed, paths, outcomes, outcome);
    }
  }

  lemma DestinationsStep(before: Files, after: Files, listed: Files, paths: seq<FilePath>, outcomes: seq<Outcome>,
                         outcome: Outcome)
    requires |outcomes| < |paths| && forall p :: p in paths ==> p in listed
    requires Distinct(paths) && Untouched(before, listed, paths[..|outcomes|])
    requires PlacedAt(before, listed, paths[..|outcomes|], Destinations(paths, outcomes), paths[|outcomes|..])
    requires outcome.Moved? ==>
      paths[|outcomes|] in before && outcome.target !in before &&
      after == (before - {paths[|outcomes|]})[outcome.target := before[paths[|outcomes|]]]
    requires !outcome.Moved? ==> after == before
    ensures PlacedAt(after, listed, paths[..|outcomes| + 1], Destinations(paths, outcomes + [outcome]), paths[|outcomes| + 1..])
  {
    var i := |outcomes|;
    assert (outcomes + [outcome])[..i] == outcomes;
    DistinctUnvisited(before, listed, paths, i);
    PlacedStep(before, after, listed, paths[..i], Destinations(paths, outcomes), paths[i], paths[i + 1..],
               Destination(paths[i], outcome));
    assert paths[..i + 1] == paths[..i] + [paths[i]];
  }

  /** The turn of the next listed file: count it, do the thing, show progress. */
  method Step(vol: Volume, o: Options, imageOf: seq<bv8> -> Option<Image>,
              listed: Files, paths: seq<FilePath>, total: nat, outcomes: seq<Outcome>, seenBytes: nat)
    returns (outcomes': seq<Outcome>, seenBytes': nat, stop: Option<string>)
    requires |outcomes| < |paths|
    requires Done(vol.files, listed, paths, outcomes, o, imageOf)
    modifies vol
    ensures seenBytes' == seenBytes + |listed[paths[|outcomes|]]|
    ensures stop.None? ==> |outcomes'| == |outcomes| + 1
    ensures stop.Some? ==> |outcomes'| <= |outcomes| + 1 && (stop.value == OutOfMemory <==> |outcomes'| == |outcomes|)
    ensures Done(vol.files, listed, paths, outcomes', o, imageOf)
    ensures stop.Some? ==> stop.value == OutOfMemory || (stop.value == DivideByZero && o.showProgress && total == 0)
  {
    var i := |outcomes|;
    seenBytes', outcomes', stop := seenBytes + |listed[paths[i]]|, outcomes, None;
    var before := vol.files;
    var outcome, r := DoTheThing(vol, o, paths[i], imageOf);
    if r.Failure? {
      stop := Some(r.error);
      return;
    }
    DoneStep(before, vol.files, listed, paths, outcomes, outcome, o, imageOf);
    outcomes' := outcomes + [outcome];
    if o.showProgress && Percent(seenBytes', total).Failure? {
      stop := Some(DivideByZero);
    }
  }

  // ------------------------------------------------------------------ options

  /** What the option parser hands over: the raw arguments, the non-option ones, and the switches given. */
  datatype ParsedArgs = ParsedArgs(raw: seq<string>, dirs: seq<string>, width: Option<nat>, height: Option<nat>,
                                   megapixels: Option<real>, destDir: Option<string>, progress: Option<bool>)

  /** The process exits after printing help or reporting a bad argument. */
  datatype Parsed = Help | Rejected(error: string) | Parsed(options: Options)

  /** The options the switches set, over the defaults, for source directory `dir`. */
  function OptionsFor(args: ParsedArgs, dir: string): (o: Options)
    ensures o.sourceDir == Some(dir)
    ensures o.megapixels == if args.megapixels.Some? then args.megapixels.value else DefaultMegapixels
    ensures o.moveToDir == if args.destDir.Some? then args.destDir.value else Combine(dir, "toss")
    ensures o.showProgress == (args.progress.None? || args.progress.value)
    ensures o.width == (if args.width.Some? then args.width.value else 0)
    ensures o.height == (if args.height.Some? then args.height.value else 0)
  {
    Options(Some(dir),
            if args.width.Some? then args.width.value else 0,
            if args.height.Some? then args.height.value else 0,
            if args.megapixels.Some? then args.megapixels.value else DefaultMegapixels,
            if args.destDir.Some? then args.destDir.value else Combine(dir, "toss"),
            args.progress.None? || args.progress.value)
  }

  /**
   * ParseOptions as written: help, then exactly one DIR, then the defaults; ValidateOptions is
   * called but its false result is dropped.
   */
  function ParseOptionsAsWritten(args: ParsedArgs): (p: Parsed)
    ensures p.Help? <==> args.raw == [] || args.raw[0] == "--help"
    ensures !p.Help? ==> (p.Rejected? <==> |args.dirs| != 1)
    ensures p.Rejected? ==> p.error == (if args.dirs == [] then ArgumentNull else ArgumentException)
    ensures p.Parsed? ==> p.options == OptionsFor(args, args.dirs[0])
  {
    if args.raw == [] || args.raw[0] == "--help" then Help
    else if args.dirs == [] then Rejected(ArgumentNull)
    else if |args.dirs| > 1 then Rejected(ArgumentException)
    else
      var options := OptionsFor(args, args.dirs[0]);
      match ValidateOptions(options)
      case Failure(e) => Rejected(e)
      case Success(_) => Parsed(options)
  }

  /** `-m 0` with no width or height is reported as invalid, and the run still goes ahead. */
  lemma InvalidCombinationStillRuns()
    ensures var args := ParsedArgs(["-m", "0", "D"], ["D"], None, None, Some(0.0), None, None);
      && ParseOptionsAsWritten(args).Parsed?
      && ValidateOptions(ParseOptionsAsWritten(args).options) == Success(false)
  {
  }

  /** ParseOptions, corrected: a combination ValidateOptions rejects ends the program too. */
  function ParseOptions(args: ParsedArgs): (p: Parsed)
    ensures p.Help? <==> args.raw == [] || args.raw[0] == "--help"
    ensures p.Rejected? ==> p.error in {ArgumentNull, ArgumentException, InvalidCombination}
    ensures !p.Help? && |args.dirs| == 1 ==>
      (p.Parsed? <==> ValidateOptions(OptionsFor(args, args.dirs[0])) == Success(true))
    ensures p.Parsed? ==> |args.dirs| == 1 && p.options == OptionsFor(args, args.dirs[0]) && ValidateOptions(p.options) == Success(true)
    ensures p.Parsed? ==> p == ParseOptionsAsWritten(args)
  {
    match ParseOptionsAsWritten(args)
    case Parsed(options) =>
      if ValidateOptions(options) == Success(false) then Rejected(InvalidCombination) else Parsed(options)
    case other => other
  }
}
