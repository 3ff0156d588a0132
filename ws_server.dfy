/**
 * The file server's session (WebSocketController.HandleAsync and its transfer helpers): one
 * web socket, a current directory confined below the directory the server started in, and
 * the commands motd, cd, ls, get and put. The peer's side of the socket is the sequence of
 * receive results still to come; what the server sends is appended to `sent`. The JSON
 * decoding of commands, SHA-256 and GetFiles' search-pattern matching are parameters.
 */
module WebSocketServer {

  import opened Wrappers
  import opened DirectoryTree
  import opened WebSocketMessages
  import Sorting
  import Text
  import EnumerableExtensions

  const BufferSize := 131072

  const WebSocketException := "WebSocketException"
  const InvalidOperation := "InvalidOperationException"
  const DirectoryNotFound := "DirectoryNotFoundException"

  const TextNotInFull := "Text message not sent in full."
  const BinaryWithoutTransfer := "Binary message sent without first establishing file transfer information."
  const IncorrectData := "Did not receive correct data."

  type Frame = Sent<Reply>

  // ------------------------------------------------------------------ ordinal order

  /** string.CompareOrdinal(a, b) <= 0. */
  predicate OrdinalLe(a: string, b: string)
    decreases |a|
  {
    a == [] || (b != [] && (a[0] < b[0] || (a[0] == b[0] && OrdinalLe(a[1..], b[1..]))))
  }

  lemma {:induction false} OrdinalLeTotal(a: string, b: string)
    ensures OrdinalLe(a, b) || OrdinalLe(b, a)
    decreases |a|
  {
    if a != [] && b != [] && a[0] == b[0] {
      OrdinalLeTotal(a[1..], b[1..]);
    }
  }

  lemma {:induction false} OrdinalLeTransitive(a: string, b: string, c: string)
    requires OrdinalLe(a, b) && OrdinalLe(b, c)
    ensures OrdinalLe(a, c)
    decreases |a|
  {
    if a != [] && a[0] == b[0] && b[0] == c[0] {
      OrdinalLeTransitive(a[1..], b[1..], c[1..]);
    }
  }

  lemma {:induction false} OrdinalLeAntisymmetric(a: string, b: string)
    requires OrdinalLe(a, b) && OrdinalLe(b, a)
    ensures a == b
    decreases |a|
  {
    if a != [] {
      OrdinalLeAntisymmetric(a[1..], b[1..]);
      assert a == [a[0]] + a[1..] && b == [b[0]] + b[1..];
    }
  }

  // ------------------------------------------------------------------ ls

  /** localDir.GetDirectories(), in the directory's order. */
  function Subdirs(cs: seq<Node>): (ds: seq<Node>)
    decreases |cs|
  {
    if cs == [] then []
    else (if cs[0].Dir? then [cs[0]] else []) + Subdirs(cs[1..])
  }

  /** GetDirectories lists the child directories, and only them. */
  lemma {:induction false} SubdirsAreTheDirectories(cs: seq<Node>)
    ensures forall d :: d in Subdirs(cs) <==> d in cs && d.Dir?
    decreases |cs|
  {
    if cs != [] {
      SubdirsAreTheDirectories(cs[1..]);
      assert cs == [cs[0]] + cs[1..];
    }
  }

  /** localDir.GetFiles(), in the directory's order. */
  function FilesOf(cs: seq<Node>): (fs: seq<Node>)
    decreases |cs|
  {
    if cs == [] then []
    else (if cs[0].File? then [cs[0]] else []) + FilesOf(cs[1..])
  }

  /** GetFiles lists the child files, and only them. */
  lemma {:induction false} FilesOfAreTheFiles(cs: seq<Node>)
    ensures forall f :: f in FilesOf(cs) <==> f in cs && f.File?
    decreases |cs|
  {
    if cs != [] {
      FilesOfAreTheFiles(cs[1..]);
      assert cs == [cs[0]] + cs[1..];
    }
  }

  /**
   * A listing entry: a directory with the summed length of GetFiles("*", AllDirectories)
   * beneath it, a file with its own length.
   */
  function EntryOf(n: Node): Entry
  {
    match n
    case Dir(name, children) => Entry(true, name, SumLengths(FilesBelow(children, [])))
    case File(name, bytes) => Entry(false, name, |bytes|)
  }

  /** The ls reply for a directory; GetDirectories throws when it does not exist. */
  function Listing(volume: Node, localDir: Path): (r: Result<Reply, string>)
    ensures r.Failure? <==> !(Lookup(volume, localDir).Some? && Lookup(volume, localDir).value.Dir?)
    ensures r.Failure? ==> r.error == DirectoryNotFound
    ensures r.Success? ==> r.value.LsReply? && r.value.currentDirectory == FullName(localDir)
  {
    match Lookup(volume, localDir)
    case Some(Dir(_, cs)) =>
      var ds, fs := Subdirs(cs), FilesOf(cs);
      Success(LsReply(FullName(localDir),
                      seq(|ds|, i requires 0 <= i < |ds| => EntryOf(ds[i])),
                      seq(|fs|, i requires 0 <= i < |fs| => EntryOf(fs[i]))))
    case _ => Failure(DirectoryNotFound)
  }

  /**
   * ls lists every child directory with the size of everything beneath it, and every child
   * file with its own length, each under its own name.
   */
  lemma ListingEntries(volume: Node, localDir: Path)
    requires Lookup(volume, localDir).Some? && Lookup(volume, localDir).value.Dir?
    ensures var cs, l := Lookup(volume, localDir).value.children, Listing(volume, localDir).value;
      && |l.dirs| == |Subdirs(cs)| && |l.files| == |FilesOf(cs)|
      && (forall i :: 0 <= i < |l.dirs| ==> l.dirs[i] == Entry(true, Subdirs(cs)[i].name, Size(Subdirs(cs)[i])))
      && (forall i :: 0 <= i < |l.files| ==> l.files[i] == Entry(false, FilesOf(cs)[i].name, Size(FilesOf(cs)[i])))
  {
    var cs := Lookup(volume, localDir).value.children;
    var ds := Subdirs(cs);
    SubdirsAreTheDirectories(cs);
    FilesOfAreTheFiles(cs);
    forall i | 0 <= i < |FilesOf(cs)|
      ensures EntryOf(FilesOf(cs)[i]) == Entry(false, FilesOf(cs)[i].name, Size(FilesOf(cs)[i]))
    {
      assert FilesOf(cs)[i] in FilesOf(cs);
    }
    forall i | 0 <= i < |ds|
      ensures EntryOf(ds[i]) == Entry(true, ds[i].name, Size(ds[i]))
    {
      assert ds[i] in ds;
      FilesBelowSize(ds[i].children, []);
    }
  }

  // ------------------------------------------------------------------ cd

  function NoSuchDirectory(t: string): Reply
  {
    ErrorReply("[" + t + "] directory does not exist.")
  }

  /** The ls reply after moving, or the directory a listing finds missing. */
  function MoveAndList(volume: Node, to: Path): (r: Result<(Path, Reply), string>)
  {
    var l := Listing(volume, to);
    if l.Failure? then Failure(l.error) else Success((to, l.value))
  }

  /**
   * cd t: ".." goes to the parent only while the current full name is longer than the root's;
   * otherwise a child directory named t (ordinally) is entered; either way the reply is the
   * new directory's listing. With neither, the reply is an Error and nothing moves. Sibling
   * names are distinct, so the first child directory named t is the child named t.
   */
  function Cd(volume: Node, root: Path, localDir: Path, t: string): (r: Result<(Path, Reply), string>)
  {
    match Lookup(volume, localDir)
    case Some(Dir(_, cs)) =>
      var k := Find(cs, t);
      if t == ".." && |FullName(localDir)| > |FullName(root)| then
        MoveAndList(volume, localDir[..|localDir| - 1])
      else if k < 0 || cs[k].File? then
        Success((localDir, NoSuchDirectory(t)))
      else
        MoveAndList(volume, localDir + [t])
    case _ => Failure(DirectoryNotFound)
  }

  /** From below the root, every cd stays at the root or below it. */
  lemma CdConfined(volume: Node, root: Path, localDir: Path, t: string)
    requires root <= localDir && Cd(volume, root, localDir, t).Success?
    ensures root <= Cd(volume, root, localDir, t).value.0
  {
    var s := localDir[|root|..];
    assert localDir == root + s;
    FullNameLonger(root, s);
    if s != [] {
      assert localDir[..|localDir| - 1] == root + s[..|s| - 1];
    }
  }

  /** At the root, cd .. is refused with an Error and the directory stays, as long as no child is named "..". */
  lemma CdUpAtRoot(volume: Node, root: Path)
    requires Lookup(volume, root).Some? && Lookup(volume, root).value.Dir?
    requires Find(Lookup(volume, root).value.children, "..") < 0
    ensures Cd(volume, root, root, "..") == Success((root, NoSuchDirectory("..")))
  {
  }

  /** cd .. below the root moves to the parent and lists it. */
  lemma CdUpBelowRoot(volume: Node, root: Path, localDir: Path)
    requires root < localDir && Lookup(volume, localDir).Some? && Lookup(volume, localDir).value.Dir?
    ensures Cd(volume, root, localDir, "..") == MoveAndList(volume, localDir[..|localDir| - 1])
  {
    var s := localDir[|root|..];
    assert localDir == root + s;
    FullNameLonger(root, s);
  }

  /** Any other cd enters exactly the child directory of that name and replies with its listing. */
  lemma CdIntoChild(volume: Node, root: Path, localDir: Path, t: string)
    requires Lookup(volume, localDir).Some? && Lookup(volume, localDir).value.Dir?
    requires t != ".." || |FullName(localDir)| <= |FullName(root)|
    ensures var cs := Lookup(volume, localDir).value.children; var k := Find(cs, t);
      && (k >= 0 && cs[k].Dir? ==>
            && Cd(volume, root, localDir, t).Success?
            && Cd(volume, root, localDir, t).value.0 == localDir + [t]
            && Cd(volume, root, localDir, t).value.1 == Listing(volume, localDir + [t]).value)
      && (!(k >= 0 && cs[k].Dir?) ==>
            Cd(volume, root, localDir, t) == Success((localDir, NoSuchDirectory(t))))
  {
    var cs := Lookup(volume, localDir).value.children;
    var k := Find(cs, t);
    if k >= 0 && cs[k].Dir? {
      LookupAppend(volume, localDir, [t]);
      assert [t][1..] == [];
    }
  }

  // ------------------------------------------------------------------ get selection

  /** The files GetFiles(pattern, AllDirectories) returns that are not empty. */
  function Candidates(fs: seq<Found>, pattern: string, matches: (string, string) -> bool): (r: seq<Found>)
    decreases |fs|
  {
    if fs == [] then []
    else
      var rest := Candidates(fs[1..], pattern, matches);
      if matches(pattern, fs[0].name) && |fs[0].bytes| > 0 then [fs[0]] + rest else rest
  }

  /** The candidates are the matching non-empty files, each as often as it was found. */
  lemma {:induction false} CandidatesAreTheMatches(fs: seq<Found>, pattern: string, matches: (string, string) -> bool)
    ensures forall f :: f in Candidates(fs, pattern, matches) <==> f in fs && matches(pattern, f.name) && |f.bytes| > 0
    ensures multiset(Candidates(fs, pattern, matches)) <= multiset(fs)
    decreases |fs|
  {
    if fs != [] {
      CandidatesAreTheMatches(fs[1..], pattern, matches);
      assert fs == [fs[0]] + fs[1..];
    }
  }

  /** OrderBy(x => x.FullName), ordinally. */
  function ByFullName(localDir: Path): (Found, Found) -> bool
  {
    (a: Found, b: Found) => OrdinalLe(FullName(localDir + a.Rel()), FullName(localDir + b.Rel()))
  }

  lemma ByFullNameIsTotalPreorder(localDir: Path)
    ensures Sorting.TotalPreorder(ByFullName(localDir))
  {
    var le := ByFullName(localDir);
    forall a, b
      ensures le(a, b) || le(b, a)
    {
      OrdinalLeTotal(FullName(localDir + a.Rel()), FullName(localDir + b.Rel()));
    }
    forall a, b, c | le(a, b) && le(b, c)
      ensures le(a, c)
    {
      OrdinalLeTransitive(FullName(localDir + a.Rel()), FullName(localDir + b.Rel()), FullName(localDir + c.Rel()));
    }
  }

  /** The files a get sends, in order. */
  function Selection(volume: Node, localDir: Path, pattern: string, matches: (string, string) -> bool)
    : (r: Result<seq<Found>, string>)
    ensures r.Failure? ==> r.error == DirectoryNotFound
  {
    match Lookup(volume, localDir)
    case Some(Dir(_, cs)) => Success(Sorting.Sort(ByFullName(localDir), Candidates(FilesBelow(cs, []), pattern, matches)))
    case _ => Failure(DirectoryNotFound)
  }

  /** Sorting by full name keeps the files and orders them pairwise. */
  lemma SortByFullName(localDir: Path, c: seq<Found>)
    ensures var sel := Sorting.Sort(ByFullName(localDir), c);
      && multiset(sel) == multiset(c)
      && (forall i, j :: 0 <= i < j < |sel| ==>
            OrdinalLe(FullName(localDir + sel[i].Rel()), FullName(localDir + sel[j].Rel())))
  {
    var le := ByFullName(localDir);
    ByFullNameIsTotalPreorder(localDir);
    Sorting.SortPermutes(le, c);
    Sorting.SortSorted(le, c);
    Sorting.SortedIsPairwise(le, Sorting.Sort(le, c));
  }

  /**
   * The selection is exactly the matching non-empty files below the directory, each once as
   * often as it is found, in ascending ordinal order of full name.
   */
  lemma SelectionIsSortedCandidates(volume: Node, localDir: Path, pattern: string, matches: (string, string) -> bool)
    requires Lookup(volume, localDir).Some? && Lookup(volume, localDir).value.Dir?
    ensures var sel := Selection(volume, localDir, pattern, matches).value;
      var all := FilesBelow(Lookup(volume, localDir).value.children, []);
      && multiset(sel) == multiset(Candidates(all, pattern, matches))
      && (forall f :: f in sel <==> f in all && matches(pattern, f.name) && |f.bytes| > 0)
      && (forall i, j :: 0 <= i < j < |sel| ==>
            OrdinalLe(FullName(localDir + sel[i].Rel()), FullName(localDir + sel[j].Rel())))
  {
    var c := Candidates(FilesBelow(Lookup(volume, localDir).value.children, []), pattern, matches);
    var sel := Sorting.Sort(ByFullName(localDir), c);
    SortByFullName(localDir, c);
    CandidatesAreTheMatches(FilesBelow(Lookup(volume, localDir).value.children, []), pattern, matches);
    forall f
      ensures f in sel <==> f in c
    {
      assert f in sel <==> f in multiset(sel);
    }
  }

  /** x.FullName.Substring(localDir.FullName.Length): the file's path below the current directory. */
  function RelativeName(localDir: Path, rel: Path): (name: string)
    ensures name == FullName(rel)
  {
    FullNameAppend(localDir, rel);
    FullName(localDir + rel)[|FullName(localDir)|..]
  }

  /**
   * The get reply's entries: each is the selected file at the same position, not a directory,
   * named by its path below the current directory, with its length in bytes.
   */
  function GetEntries(localDir: Path, sel: seq<Found>): (es: seq<Entry>)
    ensures |es| == |sel|
    ensures forall i :: 0 <= i < |sel| ==> es[i] == Entry(false, FullName(sel[i].Rel()), |sel[i].bytes|)
  {
    seq(|sel|, i requires 0 <= i < |sel| => Entry(false, RelativeName(localDir, sel[i].Rel()), |sel[i].bytes|))
  }

  function NoFilesFound(localDir: Path, pattern: string): Reply
  {
    ErrorReply("Could not find any files in " + FullName(localDir) + " for " + pattern)
  }

  // ------------------------------------------------------------------ get transfer

  /** The bytes one ReadAsync of the buffer returns at `pos`. */
  function ChunkAt(b: seq<bv8>, pos: nat): (n: nat)
    requires pos < |b|
    ensures 0 < n <= BufferSize && pos + n <= |b|
  {
    if |b| - pos < BufferSize then |b| - pos else BufferSize
  }

  /** The binary frames of a file from `pos` on, each marked end-of-message when it is the file's last. */
  function FramesFrom(b: seq<bv8>, pos: nat): (fs: seq<Frame>)
    decreases |b| - pos
  {
    if pos >= |b| then []
    else
      var n := ChunkAt(b, pos);
      [SentBinary(b[pos..pos + n], pos + n == |b|)] + FramesFrom(b, pos + n)
  }

  /** As written: a frame is marked end-of-message when it is shorter than the buffer. */
  function FramesFromAsWritten(b: seq<bv8>, pos: nat): (fs: seq<Frame>)
    decreases |b| - pos
  {
    if pos >= |b| then []
    else
      var n := ChunkAt(b, pos);
      [SentBinary(b[pos..pos + n], n != BufferSize)] + FramesFromAsWritten(b, pos + n)
  }

  /** The concatenated bytes of the binary frames. */
  function Payload(fs: seq<Frame>): seq<bv8>
    decreases |fs|
  {
    if fs == [] then [] else (if fs[0].SentBinary? then fs[0].bytes else []) + Payload(fs[1..])
  }

  /** The frames carry exactly the file's bytes, in order, each at most a buffer long. */
  lemma FramesCarryTheBytes(b: seq<bv8>, pos: nat)
    requires pos <= |b|
    ensures Payload(FramesFrom(b, pos)) == b[pos..]
    ensures forall i :: 0 <= i < |FramesFrom(b, pos)| ==>
      FramesFrom(b, pos)[i].SentBinary? && 0 < |FramesFrom(b, pos)[i].bytes| <= BufferSize
  {
    FramesPayload(b, pos);
    FramesBounded(b, pos);
  }

  lemma {:induction false} FramesPayload(b: seq<bv8>, pos: nat)
    requires pos <= |b|
    ensures Payload(FramesFrom(b, pos)) == b[pos..]
    decreases |b| - pos
  {
    if pos < |b| {
      var n := ChunkAt(b, pos);
      var f := SentBinary(b[pos..pos + n], pos + n == |b|);
      var rest := FramesFrom(b, pos + n);
      FramesPayload(b, pos + n);
      PayloadCons(f, rest);
      SliceSplit(b, pos, pos + n);
    }
  }

  lemma PayloadCons(f: Frame, rest: seq<Frame>)
    requires f.SentBinary?
    ensures Payload([f] + rest) == f.bytes + Payload(rest)
  {
    assert ([f] + rest)[0] == f && ([f] + rest)[1..] == rest;
  }

  lemma SliceSplit(b: seq<bv8>, i: nat, j: nat)
    requires i <= j <= |b|
    ensures b[i..] == b[i..j] + b[j..]
  {
  }

  lemma {:induction false} FramesBounded(b: seq<bv8>, pos: nat)
    requires pos <= |b|
    ensures forall i :: 0 <= i < |FramesFrom(b, pos)| ==>
      FramesFrom(b, pos)[i].SentBinary? && 0 < |FramesFrom(b, pos)[i].bytes| <= BufferSize
    decreases |b| - pos
  {
    if pos < |b| {
      var n := ChunkAt(b, pos);
      var f := SentBinary(b[pos..pos + n], pos + n == |b|);
      var rest := FramesFrom(b, pos + n);
      assert FramesFrom(b, pos) == [f] + rest;
      FramesBounded(b, pos + n);
      forall i | 0 <= i < |[f] + rest|
        ensures ([f] + rest)[i].SentBinary? && 0 < |([f] + rest)[i].bytes| <= BufferSize
      {
        if i > 0 {
          assert ([f] + rest)[i] == rest[i - 1];
        }
      }
    }
  }

  /** Exactly the last frame of a file ends the message. */
  lemma {:induction false} FramesEndOnce(b: seq<bv8>, pos: nat)
    requires pos < |b|
    ensures var fs := FramesFrom(b, pos);
      |fs| > 0 && forall i :: 0 <= i < |fs| ==> fs[i].SentBinary? && (fs[i].endOfMessage <==> i == |fs| - 1)
    decreases |b| - pos
  {
    var n := ChunkAt(b, pos);
    if pos + n < |b| {
      FramesEndOnce(b, pos + n);
      assert FramesFrom(b, pos)[1..] == FramesFrom(b, pos + n);
    }
  }

  /** As written, a file whose length is a whole number of buffers has no frame that ends the message. */
  lemma {:induction false} WholeBuffersNeverEnd(b: seq<bv8>, pos: nat)
    requires pos <= |b| && (|b| - pos) % BufferSize == 0
    ensures forall i :: 0 <= i < |FramesFromAsWritten(b, pos)| ==>
      FramesFromAsWritten(b, pos)[i].SentBinary? && !FramesFromAsWritten(b, pos)[i].endOfMessage
    decreases |b| - pos
  {
    if pos < |b| {
      assert ChunkAt(b, pos) == BufferSize;
      WholeBuffersNeverEnd(b, pos + BufferSize);
      assert FramesFromAsWritten(b, pos)[1..] == FramesFromAsWritten(b, pos + BufferSize);
    }
  }

  /** The smallest such file: one full buffer of zeros, sent as one frame that leaves the message open. */
  lemma OneBufferFileLeavesMessageOpen()
    ensures var b := seq(BufferSize, _ => 0 as bv8);
      FramesFromAsWritten(b, 0) == [SentBinary(b, false)] && FramesFrom(b, 0) == [SentBinary(b, true)]
  {
    var b := seq(BufferSize, _ => 0 as bv8);
    assert b[0..BufferSize] == b;
  }

  /** Otherwise the code as written sends the same frames as FramesFrom. */
  lemma {:induction false} AsWrittenAgreesOtherwise(b: seq<bv8>, pos: nat)
    requires pos <= |b| && (|b| - pos) % BufferSize != 0
    ensures FramesFromAsWritten(b, pos) == FramesFrom(b, pos)
    decreases |b| - pos
  {
    if pos < |b| {
      var n := ChunkAt(b, pos);
      if n == BufferSize {
        assert (|b| - (pos + n)) % BufferSize != 0;
        AsWrittenAgreesOtherwise(b, pos + n);
      }
    }
  }

  /** A file as get sends it: its frames, then GetEnd with the lowercase hex SHA-256 of its bytes. */
  function FileTransfer(b: seq<bv8>, sha256: seq<bv8> -> seq<bv8>): seq<Frame>
  {
    FramesFrom(b, 0) + [SentText(GetEndReply(EnumerableExtensions.ToLowercaseHash(sha256(b))))]
  }

  function Transfers(sel: seq<Found>, sha256: seq<bv8> -> seq<bv8>): seq<Frame>
    decreases |sel|
  {
    if sel == [] then [] else Transfers(sel[..|sel| - 1], sha256) + FileTransfer(sel[|sel| - 1].bytes, sha256)
  }

  lemma TransfersStep(sel: seq<Found>, i: int, sha256: seq<bv8> -> seq<bv8>, before: seq<Frame>)
    requires 0 <= i < |sel|
    ensures before + Transfers(sel[..i + 1], sha256) == (before + Transfers(sel[..i], sha256)) + FileTransfer(sel[i].bytes, sha256)
    ensures SumLengths(sel[..i + 1]) == SumLengths(sel[..i]) + |sel[i].bytes|
  {
    assert sel[..i + 1] == sel[..i] + [sel[i]] && sel[..i + 1][..i] == sel[..i];
    SumLengthsAppend(sel[..i], [sel[i]]);
  }

  // ------------------------------------------------------------------ put

  /** The pieces of a name between the separators '\' and '/'. */
  function Segments(name: string): (ss: seq<string>)
    ensures |ss| >= 1
    decreases |name|
  {
    if '\\' !in name && '/' !in name then [name]
    else
      var k := SeparatorAt(name);
      [name[..k]] + Segments(name[k + 1..])
  }

  function SeparatorAt(s: string): (k: nat)
    requires '\\' in s || '/' in s
    ensures k < |s| && (s[k] == '\\' || s[k] == '/')
  {
    if s[0] == '\\' || s[0] == '/' then 0 else 1 + SeparatorAt(s[1..])
  }

  /** Full-path normalization: empty and "." pieces vanish, ".." drops the last name (never above the volume root). */
  function Normalize(p: Path, segs: seq<string>): (r: Path)
    decreases |segs|
  {
    if segs == [] then p
    else if segs[0] == "" || segs[0] == "." then Normalize(p, segs[1..])
    else if segs[0] == ".." then Normalize(if p == [] then [] else p[..|p| - 1], segs[1..])
    else Normalize(p + [segs[0]], segs[1..])
  }

  /**
   * Where a put name leads: the normalized path, and whether the name ends in a separator, in
   * which case Path.GetFullPath keeps that separator and the FileInfo designates the
   * directory at the path rather than a file.
   */
  datatype Target = Target(path: Path, directory: bool)

  /** new FileInfo(Path.Join(localDir.FullName, name)): the file a put name designates. */
  function PutTarget(localDir: Path, name: string): (t: Target)
  {
    Target(Normalize(localDir, Segments(name)), name != [] && (name[|name| - 1] == '\\' || name[|name| - 1] == '/'))
  }

  /** A name with no ".." piece lands below the current directory. */
  lemma {:induction false} NormalizeStaysBelow(p: Path, segs: seq<string>)
    requires forall i :: 0 <= i < |segs| ==> segs[i] != ".."
    ensures p <= Normalize(p, segs)
    decreases |segs|
  {
    if segs != [] {
      var q := if segs[0] == "" || segs[0] == "." then p else p + [segs[0]];
      NormalizeStaysBelow(q, segs[1..]);
    }
  }

  /** The put name is not confined like cd: "..\x" from the root writes next to it. */
  lemma PutNameCanLeaveRoot()
    ensures PutTarget(["srv"], "..\\x") == Target(["x"], false)
  {
    var name := "..\\x";
    assert SeparatorAt(name) == 2 && name[..2] == ".." && name[3..] == "x";
    assert Segments(name) == ["..", "x"];
  }

  /** A put name ending in a separator designates a directory: "a\\" is the directory a, not a file. */
  lemma PutNameCanNameDirectory()
    ensures PutTarget(["srv"], "a\\") == Target(["srv", "a"], true)
  {
    var name := "a\\";
    assert SeparatorAt(name) == 1 && name[..1] == "a" && name[2..] == "";
    assert Segments(name) == ["a", ""];
  }

  /** As written, FileInfo.OpenWrite does not truncate: a shorter upload keeps the old file's tail. */
  function OpenWriteContentAsWritten(existing: Option<seq<bv8>>, got: seq<bv8>): (content: seq<bv8>)
  {
    if existing.Some? && |got| < |existing.value| then got + existing.value[|got|..] else got
  }

  /** The file after put: exactly the bytes received. */
  function PutContent(existing: Option<seq<bv8>>, got: seq<bv8>): (content: seq<bv8>)
    ensures |content| == |got|
  {
    got
  }

  /** A 1-byte upload over a 3-byte file, which the hash check accepts, leaves 3 bytes of which only the first is new. */
  lemma ShorterUploadKeepsOldTail()
    ensures OpenWriteContentAsWritten(Some([1, 2, 3]), [9]) == [9, 2, 3]
    ensures PutContent(Some([1, 2, 3]), [9]) == [9]
  {
  }

  /** Uploads at least as long as the old file are unaffected by the missing truncation. */
  lemma AsWrittenAgreesOnLongerUploads(existing: Option<seq<bv8>>, got: seq<bv8>)
    requires existing.None? || |got| >= |existing.value|
    ensures OpenWriteContentAsWritten(existing, got) == PutContent(existing, got)
  {
  }

  /** A receive result ends the message: a data frame so marked, or a close. */
  predicate Ends(r: Received)
  {
    r.CloseReceived? || r.endOfMessage
  }

  /** The bytes a receive result puts in the buffer (Count): none for a close. */
  function BytesOf(r: Received): seq<bv8>
  {
    if r.Data? then r.payload else []
  }

  function Payloads(rs: seq<Received>): seq<bv8>
    decreases |rs|
  {
    if rs == [] then [] else Payloads(rs[..|rs| - 1]) + BytesOf(rs[|rs| - 1])
  }

  /** The index of the first result that ends a message, or -1. */
  function MessageEnd(rs: seq<Received>): (k: int)
    ensures -1 <= k < |rs|
    decreases |rs|
  {
    if rs == [] then -1
    else if Ends(rs[0]) then 0
    else
      var k := MessageEnd(rs[1..]);
      if k < 0 then -1 else k + 1
  }

  lemma {:induction false} MessageEndAt(rs: seq<Received>, t: int)
    requires 0 <= t <= |rs|
    requires forall j :: 0 <= j < t ==> !Ends(rs[j])
    ensures t < |rs| && Ends(rs[t]) ==> MessageEnd(rs) == t
    ensures t == |rs| ==> MessageEnd(rs) == -1
    decreases t
  {
    if t > 0 {
      MessageEndAt(rs[1..], t - 1);
    }
  }

  /** The first `taken` results carried `got` and none of them ended the message. */
  ghost predicate Collected(rs: seq<Received>, taken: int, got: seq<bv8>)
  {
    0 <= taken <= |rs| && (forall j :: 0 <= j < taken ==> !Ends(rs[j])) && got == Payloads(rs[..taken])
  }

  lemma CollectedStep(rs: seq<Received>, taken: int, got: seq<bv8>)
    requires Collected(rs, taken, got) && taken < |rs|
    ensures got + BytesOf(rs[taken]) == Payloads(rs[..taken + 1])
    ensures !Ends(rs[taken]) ==> Collected(rs, taken + 1, got + BytesOf(rs[taken]))
    ensures Ends(rs[taken]) ==> MessageEnd(rs) == taken
  {
    assert rs[..taken + 1][..taken] == rs[..taken];
    MessageEndAt(rs, taken);
  }

  lemma CollectedAll(rs: seq<Received>, got: seq<bv8>)
    requires Collected(rs, |rs|, got)
    ensures MessageEnd(rs) == -1 && got == Payloads(rs)
  {
    MessageEndAt(rs, |rs|);
    assert rs[..|rs|] == rs;
  }

  /** The server accepts a put-end whose HashSHA256 equals its own, ignoring case; a missing one never does. */
  predicate HashAccepted(expected: Option<string>, actual: string)
  {
    expected.Some? && Text.EqualsIgnoreCase(expected.value, actual)
  }

  /**
   * What one file of a put does to the session: the outcome, the volume, the receive results
   * left, whether the peer has closed, the bytes received, whether the file was created, the
   * closes sent and the text messages counted.
   */
  datatype Upload = Upload(r: Result<(), string>, volume: Node, input: seq<Received>, closed: bool,
                           got: seq<bv8>, created: bool, closes: seq<Frame>, texts: nat)

  /** What reading the put-end does: the outcome, the results left, the close flag, the closes sent and the text messages counted. */
  datatype PutEnd = PutEnd(r: Result<(), string>, input: seq<Received>, closed: bool, closes: seq<Frame>, texts: nat)

  /**
   * The put-end read after the data: one result, which must end its message (else a
   * PolicyViolation close) and carry a hash matching `actual` (else an InvalidPayloadData close).
   */
  function PutEndCheck(input: seq<Received>, closed: bool, actual: string, putEndHash: seq<bv8> -> Option<string>): PutEnd
  {
    if closed || input == [] then PutEnd(Failure(WebSocketException), input, closed, [], 0)
    else if !Ends(input[0]) then
      PutEnd(Failure(InvalidOperation), input[1..], input[0].CloseReceived?, [SentClose(PolicyViolation, TextNotInFull)], 1)
    else if !HashAccepted(putEndHash(BytesOf(input[0])), actual) then
      PutEnd(Failure(InvalidOperation), input[1..], input[0].CloseReceived?, [SentClose(InvalidPayloadData, IncorrectData)], 1)
    else PutEnd(Success(()), input[1..], input[0].CloseReceived?, [], 1)
  }

  /** A put-end succeeds only after one text message whose hash matched, and a close is sent exactly when it is refused. */
  lemma PutEndCheckFacts(input: seq<Received>, closed: bool, actual: string, putEndHash: seq<bv8> -> Option<string>)
    ensures var e := PutEndCheck(input, closed, actual, putEndHash);
      && e.texts <= 1 && |e.input| <= |input|
      && (e.r.Success? ==> !closed && input != [] && HashAccepted(putEndHash(BytesOf(input[0])), actual))
      && (e.r.Failure? ==> e.r.error in {WebSocketException, InvalidOperation})
      && (e.r == Failure(InvalidOperation) ==>
            e.closes == [SentClose(PolicyViolation, TextNotInFull)] || e.closes == [SentClose(InvalidPayloadData, IncorrectData)])
      && (e.r != Failure(InvalidOperation) ==> e.closes == [])
  {
  }

  /**
   * One file of a put: the file is created (or the creation fails and nothing else happens),
   * the data results up to the first that ends the message are received and written, and the
   * put-end is checked against the lowercase hex SHA-256 of those bytes. A target that is a
   * directory is created as a directory (unless a file is in the way, which throws and changes
   * nothing), and then opening it for writing throws UnauthorizedAccessException before
   * anything is received.
   */
  function UploadOf(volume: Node, target: Target, closed: bool, input: seq<Received>,
                    sha256: seq<bv8> -> seq<bv8>, putEndHash: seq<bv8> -> Option<string>): (u: Upload)
    requires volume.Dir?
    ensures u.volume.Dir?
  {
    if target.directory then
      var made := MakeDir(volume, target.path);
      if made.Failure? then Upload(Failure(made.error), volume, input, closed, [], false, [], 0)
      else Upload(Failure(UnauthorizedAccess), made.value, input, closed, [], false, [], 0)
    else
    var created := Write(volume, target.path, []);
    if created.Failure? then Upload(Failure(created.error), volume, input, closed, [], false, [], 0)
    else if closed then Upload(Failure(WebSocketException), created.value, input, closed, [], true, [], 0)
    else
      var k := MessageEnd(input);
      var got := if k < 0 then Payloads(input) else Payloads(input[..k + 1]);
      WriteAnyBytes(volume, target.path, [], got);
      var written := Write(volume, target.path, got).value;
      if k < 0 then Upload(Failure(WebSocketException), written, [], false, got, true, [], 0)
      else
        var e := PutEndCheck(input[k + 1..], input[k].CloseReceived?, EnumerableExtensions.ToLowercaseHash(sha256(got)), putEndHash);
        Upload(e.r, written, e.input, e.closed, got, true, e.closes, e.texts)
  }

  /**
   * The cases of one file: a directory target is created as a directory, or left alone when a
   * file is in the way, and fails having received nothing; a failed creation changes nothing;
   * otherwise the file holds the bytes received, which are those of the first message, and
   * success means the put-end's hash matched theirs; at most one text message is read and a
   * close is sent exactly when the put-end is refused.
   */
  lemma UploadOfFacts(volume: Node, target: Target, closed: bool, input: seq<Received>,
                      sha256: seq<bv8> -> seq<bv8>, putEndHash: seq<bv8> -> Option<string>)
    requires volume.Dir?
    ensures var u := UploadOf(volume, target, closed, input, sha256, putEndHash);
      && (target.directory ==>
            && u.r.Failure? && u.got == [] && !u.created && u.input == input && u.closed == closed
            && u.texts == 0 && u.closes == []
            && (MakeDir(volume, target.path).Failure? ==> u.r == Failure(MakeDir(volume, target.path).error) && u.volume == volume)
            && (MakeDir(volume, target.path).Success? ==>
                  u.r == Failure(UnauthorizedAccess) && u.volume == MakeDir(volume, target.path).value))
      && (!target.directory && Write(volume, target.path, []).Failure? ==>
            u.r == Failure(Write(volume, target.path, []).error) && u.got == [] && !u.created
            && u.volume == volume && u.input == input && u.closed == closed && u.texts == 0 && u.closes == [])
      && (!target.directory && Write(volume, target.path, []).Success? ==>
            u.created && Write(volume, target.path, u.got).Success? && u.volume == Write(volume, target.path, u.got).value)
      && (!target.directory && Write(volume, target.path, []).Success? && closed ==>
            u.got == [] && u.r == Failure(WebSocketException) && u.input == input)
      && (!target.directory && Write(volume, target.path, []).Success? && !closed ==>
            var k := MessageEnd(input);
            && (k < 0 ==> u.got == Payloads(input) && u.r == Failure(WebSocketException))
            && (k >= 0 ==> u.got == Payloads(input[..k + 1]))
            && (k >= 0 && u.r.Success? ==>
                  k + 1 < |input| && HashAccepted(putEndHash(BytesOf(input[k + 1])),
                                                  EnumerableExtensions.ToLowercaseHash(sha256(u.got)))))
      && u.texts <= 1 && |u.input| <= |input|
      && (u.r.Failure? ==> u.r.error in {ArgumentNull, IOException, UnauthorizedAccess, WebSocketException, InvalidOperation})
      && (u.r == Failure(InvalidOperation) ==>
            u.closes == [SentClose(PolicyViolation, TextNotInFull)] || u.closes == [SentClose(InvalidPayloadData, IncorrectData)])
      && (u.r != Failure(InvalidOperation) ==> u.closes == [])
  {
    var created := Write(volume, target.path, []);
    if !target.directory && created.Success? && !closed {
      var k := MessageEnd(input);
      var got := if k < 0 then Payloads(input) else Payloads(input[..k + 1]);
      WriteAnyBytes(volume, target.path, [], got);
      if k >= 0 {
        PutEndCheckFacts(input[k + 1..], input[k].CloseReceived?, EnumerableExtensions.ToLowercaseHash(sha256(got)), putEndHash);
        assert input[k + 1..] != [] ==> input[k + 1..][0] == input[k + 1];
      }
    }
  }

  /** A file that cannot be created is the whole of the upload. */
  lemma UploadOfNotCreated(volume: Node, target: Target, closed: bool, input: seq<Received>,
                           sha256: seq<bv8> -> seq<bv8>, putEndHash: seq<bv8> -> Option<string>)
    requires volume.Dir? && !target.directory && Write(volume, target.path, []).Failure?
    ensures UploadOf(volume, target, closed, input, sha256, putEndHash)
            == Upload(Failure(Write(volume, target.path, []).error), volume, input, closed, [], false, [], 0)
  {
  }

  /**
   * A name designating a directory receives nothing and fails: either the directory now exists
   * and every file is as it was (UnauthorizedAccessException from opening it), or a file in the
   * way, or the volume root, throws and leaves the volume as it was.
   */
  lemma UploadOfDirectory(volume: Node, target: Target, closed: bool, input: seq<Received>,
                          sha256: seq<bv8> -> seq<bv8>, putEndHash: seq<bv8> -> Option<string>)
    requires volume.Dir? && target.directory
    ensures var u := UploadOf(volume, target, closed, input, sha256, putEndHash);
      && u.r.Failure? && u.got == [] && u.input == input && u.closes == []
      && (u.r == Failure(UnauthorizedAccess) ==>
            && Lookup(u.volume, target.path).Some? && Lookup(u.volume, target.path).value.Dir?
            && forall q :: Lookup(volume, q).Some? && Lookup(volume, q).value.File? ==> Lookup(u.volume, q) == Lookup(volume, q))
      && (u.r != Failure(UnauthorizedAccess) ==> u.r.error in {ArgumentNull, IOException} && u.volume == volume)
  {
    var made := MakeDir(volume, target.path);
    if made.Success? {
      MakeDirThenLookup(volume, target.path);
      forall q | Lookup(volume, q).Some? && Lookup(volume, q).value.File?
        ensures Lookup(made.value, q) == Lookup(volume, q)
      {
        MakeDirKeepsFiles(volume, target.path, q);
      }
    }
  }

  /** ReceiveData's outcome, from the session's `closed` and `input` before it. */
  ghost predicate DataReceived(closed: bool, input: seq<Received>, got: seq<bv8>, r: Result<(), string>,
                               input': seq<Received>, closed': bool)
  {
    && (closed ==> r == Failure(WebSocketException) && got == [] && input' == input && closed')
    && (!closed ==> var k := MessageEnd(input);
          && (k < 0 ==> r == Failure(WebSocketException) && got == Payloads(input) && input' == [] && !closed')
          && (k >= 0 ==> r.Success? && got == Payloads(input[..k + 1]) && input' == input[k + 1..]
                         && closed' == input[k].CloseReceived?))
  }

  /** Once the file is created, UploadOf is the data received followed by the put-end. */
  lemma UploadOfReceived(volume: Node, target: Target, closed: bool, input: seq<Received>,
                         sha256: seq<bv8> -> seq<bv8>, putEndHash: seq<bv8> -> Option<string>,
                         got: seq<bv8>, r: Result<(), string>, input': seq<Received>, closed': bool)
    requires volume.Dir? && !target.directory && Write(volume, target.path, []).Success?
    requires DataReceived(closed, input, got, r, input', closed')
    ensures Write(volume, target.path, got).Success?
    ensures r.Failure? ==>
      UploadOf(volume, target, closed, input, sha256, putEndHash)
        == Upload(r, Write(volume, target.path, got).value, input', closed', got, true, [], 0)
    ensures r.Success? ==>
      var e := PutEndCheck(input', closed', EnumerableExtensions.ToLowercaseHash(sha256(got)), putEndHash);
      UploadOf(volume, target, closed, input, sha256, putEndHash)
        == Upload(e.r, Write(volume, target.path, got).value, e.input, e.closed, got, true, e.closes, e.texts)
  {
    WriteAnyBytes(volume, target.path, [], got);
  }

  /** A file that was put successfully sent no close. */
  lemma UploadOfQuiet(volume: Node, target: Target, closed: bool, input: seq<Received>,
                      sha256: seq<bv8> -> seq<bv8>, putEndHash: seq<bv8> -> Option<string>)
    requires volume.Dir?
    ensures UploadOf(volume, target, closed, input, sha256, putEndHash).r.Success? ==>
      UploadOf(volume, target, closed, input, sha256, putEndHash).closes == []
  {
    UploadOfFacts(volume, target, closed, input, sha256, putEndHash);
  }

  /** What a whole put does: the files in order, stopping at the first failure. */
  datatype PutOutcome = PutOutcome(r: Result<(), string>, volume: Node, input: seq<Received>, closed: bool,
                                   closes: seq<Frame>, texts: nat, bytes: nat, written: seq<(Path, seq<bv8>)>)

  /** The files of a put, each at its target below `localDir`; a failure ends the put. */
  function Uploads(volume: Node, localDir: Path, names: seq<string>, closed: bool, input: seq<Received>,
                   sha256: seq<bv8> -> seq<bv8>, putEndHash: seq<bv8> -> Option<string>): (p: PutOutcome)
    requires volume.Dir?
    ensures p.volume.Dir?
    decreases |names|
  {
    if names == [] then PutOutcome(Success(()), volume, input, closed, [], 0, 0, [])
    else
      var t := PutTarget(localDir, names[0]);
      var u := UploadOf(volume, t, closed, input, sha256, putEndHash);
      var w := if u.created then [(t.path, u.got)] else [];
      if u.r.Failure? then PutOutcome(u.r, u.volume, u.input, u.closed, u.closes, u.texts, |u.got|, w)
      else
        var rest := Uploads(u.volume, localDir, names[1..], u.closed, u.input, sha256, putEndHash);
        rest.(texts := u.texts + rest.texts, bytes := |u.got| + rest.bytes, written := w + rest.written)
  }

  /**
   * A put reads no more than the results there are; it fails only with the exceptions a file
   * can raise, and it sends a close exactly when a put-end was refused, that close alone.
   */
  lemma {:induction false} UploadsFacts(volume: Node, localDir: Path, names: seq<string>, closed: bool, input: seq<Received>,
                                        sha256: seq<bv8> -> seq<bv8>, putEndHash: seq<bv8> -> Option<string>)
    requires volume.Dir?
    ensures var p := Uploads(volume, localDir, names, closed, input, sha256, putEndHash);
      && |p.input| <= |input|
      && (p.r.Failure? ==> p.r.error in {ArgumentNull, IOException, UnauthorizedAccess, WebSocketException, InvalidOperation})
      && (p.r == Failure(InvalidOperation) ==>
            p.closes == [SentClose(PolicyViolation, TextNotInFull)] || p.closes == [SentClose(InvalidPayloadData, IncorrectData)])
      && (p.r != Failure(InvalidOperation) ==> p.closes == [])
    decreases |names|
  {
    if names != [] {
      var t := PutTarget(localDir, names[0]);
      var u := UploadOf(volume, t, closed, input, sha256, putEndHash);
      UploadOfFacts(volume, t, closed, input, sha256, putEndHash);
      if u.r.Success? {
        UploadsFacts(u.volume, localDir, names[1..], u.closed, u.input, sha256, putEndHash);
      }
    }
  }

  /**
   * What a put's outcome means for the session: no more results than there were are left, the
   * only frame sent is the close of a refused put-end, and only the received counts grow.
   */
  lemma PutSummary(volume: Node, localDir: Path, names: seq<string>, closed: bool, input: seq<Received>,
                   sha256: seq<bv8> -> seq<bv8>, putEndHash: seq<bv8> -> Option<string>,
                   r: Result<(), string>, input': seq<Received>, s0: seq<Frame>, sent: seq<Frame>,
                   n0: Counters, counters: Counters)
    requires volume.Dir?
    requires var p := Uploads(volume, localDir, names, closed, input, sha256, putEndHash);
      r == p.r && input' == p.input && sent == s0 + p.closes && counters == Receiving(n0, p.texts, p.bytes)
    ensures |input'| <= |input| && s0 <= sent && Grew(n0, counters)
    ensures counters.textMessagesSent == n0.textMessagesSent && counters.binaryBytesSent == n0.binaryBytesSent
    ensures r.Failure? ==> r.error in {ArgumentNull, IOException, UnauthorizedAccess, WebSocketException, InvalidOperation}
    ensures r == Failure(InvalidOperation) ==>
      |sent| > 0 && sent[|sent| - 1] in {SentClose(PolicyViolation, TextNotInFull), SentClose(InvalidPayloadData, IncorrectData)}
    ensures r != Failure(InvalidOperation) ==> sent == s0
  {
    UploadsFacts(volume, localDir, names, closed, input, sha256, putEndHash);
  }

  /** An outcome after `texts` text messages, `bytes` bytes and the writes `w` already done. */
  function After(p: PutOutcome, texts: nat, bytes: nat, w: seq<(Path, seq<bv8>)>): PutOutcome
  {
    p.(texts := texts + p.texts, bytes := bytes + p.bytes, written := w + p.written)
  }

  /** The files of a put from the `i`-th: that file, and then the rest after it succeeded. */
  lemma UploadsStep(volume: Node, localDir: Path, names: seq<string>, i: int, closed: bool, input: seq<Received>,
                    sha256: seq<bv8> -> seq<bv8>, putEndHash: seq<bv8> -> Option<string>)
    requires volume.Dir? && 0 <= i < |names|
    ensures var t := PutTarget(localDir, names[i]);
      var u := UploadOf(volume, t, closed, input, sha256, putEndHash);
      var w := if u.created then [(t.path, u.got)] else [];
      var p := Uploads(volume, localDir, names[i..], closed, input, sha256, putEndHash);
      && (u.r.Failure? ==> p == PutOutcome(u.r, u.volume, u.input, u.closed, u.closes, u.texts, |u.got|, w))
      && (u.r.Success? ==> p == After(Uploads(u.volume, localDir, names[i + 1..], u.closed, u.input, sha256, putEndHash),
                                      u.texts, |u.got|, w))
  {
    assert names[i..][0] == names[i] && names[i..][1..] == names[i + 1..];
  }

  /** A put whose every file was done has the state those files left. */
  lemma UploadsDone(v0: Node, localDir: Path, names: seq<string>, c0: bool, i0: seq<Received>,
                    sha256: seq<bv8> -> seq<bv8>, putEndHash: seq<bv8> -> Option<string>,
                    volume: Node, closed: bool, input: seq<Received>,
                    texts: nat, bytes: nat, written: seq<(Path, seq<bv8>)>)
    requires v0.Dir? && volume.Dir?
    requires Uploads(v0, localDir, names, c0, i0, sha256, putEndHash)
             == After(Uploads(volume, localDir, names[|names|..], closed, input, sha256, putEndHash), texts, bytes, written)
    ensures Uploads(v0, localDir, names, c0, i0, sha256, putEndHash)
            == PutOutcome(Success(()), volume, input, closed, [], texts, bytes, written)
  {
    assert names[|names|..] == [];
    assert written + [] == written;
  }

  /** Counting nothing changes nothing. */
  lemma AfterNothing(p: PutOutcome)
    ensures After(p, 0, 0, []) == p
  {
    assert [] + p.written == p.written;
  }

  /** Counting in two steps is counting once. */
  lemma AfterAfter(p: PutOutcome, texts: nat, bytes: nat, w: seq<(Path, seq<bv8>)>,
                   texts': nat, bytes': nat, w': seq<(Path, seq<bv8>)>)
    ensures After(After(p, texts', bytes', w'), texts, bytes, w) == After(p, texts + texts', bytes + bytes', w + w')
  {
    assert w + (w' + p.written) == (w + w') + p.written;
  }

  /**
   * One more file of a put whose first `i` files left `volume`, `closed` and `input`, ending in
   * the state ReceiveFile reaches; when the file fails, that state is the put's outcome.
   */
  lemma UploadsStop(v0: Node, localDir: Path, names: seq<string>, c0: bool, i0: seq<Received>,
                    sha256: seq<bv8> -> seq<bv8>, putEndHash: seq<bv8> -> Option<string>,
                    i: int, volume: Node, closed: bool, input: seq<Received>,
                    texts: nat, bytes: nat, written: seq<(Path, seq<bv8>)>,
                    r: Result<(), string>, volume': Node, closed': bool, input': seq<Received>,
                    s0: seq<Frame>, sent: seq<Frame>, n0: Counters, counters: Counters)
    requires v0.Dir? && volume.Dir? && 0 <= i < |names|
    requires Uploads(v0, localDir, names, c0, i0, sha256, putEndHash)
             == After(Uploads(volume, localDir, names[i..], closed, input, sha256, putEndHash), texts, bytes, written)
    requires var u := UploadOf(volume, PutTarget(localDir, names[i]), closed, input, sha256, putEndHash);
      && r == u.r && volume' == u.volume && input' == u.input && closed' == u.closed
      && sent == s0 + u.closes && counters == Receiving(Receiving(n0, texts, bytes), u.texts, |u.got|)
    requires r.Failure?
    ensures var p := Uploads(v0, localDir, names, c0, i0, sha256, putEndHash);
      && r == p.r && volume' == p.volume && input' == p.input && closed' == p.closed
      && sent == s0 + p.closes && counters == Receiving(n0, p.texts, p.bytes)
  {
    UploadsStep(volume, localDir, names, i, closed, input, sha256, putEndHash);
  }

  /**
   * One more file of a put whose first `i` files left `volume`, `closed` and `input`, ending in
   * the state ReceiveFile reaches; when the file succeeds, it sent nothing and the put goes on
   * from that state at the next name, with the file's counts added.
   */
  lemma UploadsGoOn(v0: Node, localDir: Path, names: seq<string>, c0: bool, i0: seq<Received>,
                    sha256: seq<bv8> -> seq<bv8>, putEndHash: seq<bv8> -> Option<string>,
                    i: int, volume: Node, closed: bool, input: seq<Received>,
                    texts: nat, bytes: nat, written: seq<(Path, seq<bv8>)>,
                    r: Result<(), string>, volume': Node, closed': bool, input': seq<Received>,
                    s0: seq<Frame>, sent: seq<Frame>, n0: Counters, counters: Counters)
    returns (texts': nat, bytes': nat, written': seq<(Path, seq<bv8>)>)
    requires v0.Dir? && volume.Dir? && 0 <= i < |names|
    requires Uploads(v0, localDir, names, c0, i0, sha256, putEndHash)
             == After(Uploads(volume, localDir, names[i..], closed, input, sha256, putEndHash), texts, bytes, written)
    requires var u := UploadOf(volume, PutTarget(localDir, names[i]), closed, input, sha256, putEndHash);
      && r == u.r && volume' == u.volume && input' == u.input && closed' == u.closed
      && sent == s0 + u.closes && counters == Receiving(Receiving(n0, texts, bytes), u.texts, |u.got|)
    requires r.Success?
    ensures volume'.Dir?
    ensures sent == s0 && counters == Receiving(n0, texts', bytes')
    ensures Uploads(v0, localDir, names, c0, i0, sha256, putEndHash)
            == After(Uploads(volume', localDir, names[i + 1..], closed', input', sha256, putEndHash), texts', bytes', written')
  {
    texts', bytes', written' := UploadsContinue(v0, localDir, names, c0, i0, sha256, putEndHash, i, volume, closed, input,
                                                texts, bytes, written);
    assert sent == s0 + [];
  }

  /** The composition UploadsGoOn rests on, on outcomes alone. */
  lemma UploadsContinue(v0: Node, localDir: Path, names: seq<string>, c0: bool, i0: seq<Received>,
                        sha256: seq<bv8> -> seq<bv8>, putEndHash: seq<bv8> -> Option<string>,
                        i: int, volume: Node, closed: bool, input: seq<Received>,
                        texts: nat, bytes: nat, written: seq<(Path, seq<bv8>)>)
    returns (texts': nat, bytes': nat, written': seq<(Path, seq<bv8>)>)
    requires v0.Dir? && volume.Dir? && 0 <= i < |names|
    requires Uploads(v0, localDir, names, c0, i0, sha256, putEndHash)
             == After(Uploads(volume, localDir, names[i..], closed, input, sha256, putEndHash), texts, bytes, written)
    requires UploadOf(volume, PutTarget(localDir, names[i]), closed, input, sha256, putEndHash).r.Success?
    ensures var u := UploadOf(volume, PutTarget(localDir, names[i]), closed, input, sha256, putEndHash);
      && u.closes == [] && texts' == texts + u.texts && bytes' == bytes + |u.got|
      && Uploads(v0, localDir, names, c0, i0, sha256, putEndHash)
         == After(Uploads(u.volume, localDir, names[i + 1..], u.closed, u.input, sha256, putEndHash), texts', bytes', written')
  {
    var t := PutTarget(localDir, names[i]);
    var u := UploadOf(volume, t, closed, input, sha256, putEndHash);
    var w := if u.created then [(t.path, u.got)] else [];
    texts', bytes', written' := texts + u.texts, bytes + |u.got|, written + w;
    var rest := Uploads(u.volume, localDir, names[i + 1..], u.closed, u.input, sha256, putEndHash);
    UploadsStep(volume, localDir, names, i, closed, input, sha256, putEndHash);
    assert Uploads(volume, localDir, names[i..], closed, input, sha256, putEndHash) == After(rest, u.texts, |u.got|, w);
    UploadOfQuiet(volume, t, closed, input, sha256, putEndHash);
    AfterAfter(rest, texts, bytes, written, u.texts, |u.got|, w);
  }

  /** The name a written path's file gets: its last piece. */
  function LastName(p: Path): string
  {
    if p == [] then "" else p[|p| - 1]
  }

  /** The successive writes of each (path, bytes) pair, failing when one of them does. */
  function WriteAll(volume: Node, ws: seq<(Path, seq<bv8>)>): (r: Result<Node, string>)
    requires volume.Dir?
    ensures r.Success? ==> r.value.Dir?
    decreases |ws|
  {
    if ws == [] then Success(volume)
    else
      var w := Write(volume, ws[0].0, ws[0].1);
      if w.Failure? then Failure(w.error) else WriteAll(w.value, ws[1..])
  }

  /**
   * What one file writes: nothing when it cannot be created, else once, the bytes received; a
   * directory target writes no file, at most creating the directory, and fails.
   */
  lemma UploadOfWrites(volume: Node, target: Target, closed: bool, input: seq<Received>,
                       sha256: seq<bv8> -> seq<bv8>, putEndHash: seq<bv8> -> Option<string>)
    requires volume.Dir?
    ensures var u := UploadOf(volume, target, closed, input, sha256, putEndHash);
      && (target.directory ==> !u.created)
      && (!u.created ==>
            && u.r.Failure?
            && (|| u.volume == volume
                || (target.directory && u.r == Failure(UnauthorizedAccess) && MakeDir(volume, target.path) == Success(u.volume))))
      && (u.created ==> Write(volume, target.path, u.got) == Success(u.volume))
  {
    UploadOfFacts(volume, target, closed, input, sha256, putEndHash);
  }

  /**
   * A put writes the files it names in order and nothing after the file that failed: the
   * written targets are the first names' targets, none of them a directory, all of them on
   * success.
   */
  lemma {:induction false} UploadsWriteInOrder(volume: Node, localDir: Path, names: seq<string>, closed: bool,
                                               input: seq<Received>, sha256: seq<bv8> -> seq<bv8>,
                                               putEndHash: seq<bv8> -> Option<string>)
    requires volume.Dir?
    ensures var p := Uploads(volume, localDir, names, closed, input, sha256, putEndHash);
      && |p.written| <= |names|
      && (forall j :: 0 <= j < |p.written| ==>
            p.written[j].0 == PutTarget(localDir, names[j]).path && !PutTarget(localDir, names[j]).directory)
      && (p.r.Success? ==> |p.written| == |names| && p.closes == [])
    decreases |names|
  {
    if names != [] {
      var t := PutTarget(localDir, names[0]);
      var u := UploadOf(volume, t, closed, input, sha256, putEndHash);
      if u.r.Success? {
        UploadOfWrites(volume, t, closed, input, sha256, putEndHash);
        UploadOfQuiet(volume, t, closed, input, sha256, putEndHash);
        UploadsWriteInOrder(u.volume, localDir, names[1..], u.closed, u.input, sha256, putEndHash);
      }
    }
  }

  /**
   * The new volume of a put is the successive writes of exactly the files it wrote, followed,
   * when the put ended at a name designating a directory, by the creation of that directory.
   */
  lemma {:induction false} UploadsWriteAll(volume: Node, localDir: Path, names: seq<string>, closed: bool,
                                           input: seq<Received>, sha256: seq<bv8> -> seq<bv8>,
                                           putEndHash: seq<bv8> -> Option<string>)
    requires volume.Dir?
    ensures var p := Uploads(volume, localDir, names, closed, input, sha256, putEndHash);
      && WriteAll(volume, p.written).Success?
      && var v := WriteAll(volume, p.written).value;
         || p.volume == v
         || (&& |p.written| < |names| && PutTarget(localDir, names[|p.written|]).directory
             && p.r == Failure(UnauthorizedAccess)
             && MakeDir(v, PutTarget(localDir, names[|p.written|]).path) == Success(p.volume))
    decreases |names|
  {
    if names != [] {
      var t := PutTarget(localDir, names[0]);
      var u := UploadOf(volume, t, closed, input, sha256, putEndHash);
      UploadOfWrites(volume, t, closed, input, sha256, putEndHash);
      if u.r.Success? {
        var rest := Uploads(u.volume, localDir, names[1..], u.closed, u.input, sha256, putEndHash);
        UploadsWriteAll(u.volume, localDir, names[1..], u.closed, u.input, sha256, putEndHash);
        assert ([(t.path, u.got)] + rest.written)[1..] == rest.written;
        assert |rest.written| < |names[1..]| ==> names[1..][|rest.written|] == names[|rest.written| + 1];
      }
    }
  }

  /** Writing other paths keeps every file that is not written. */
  lemma {:induction false} WriteAllKeeps(volume: Node, ws: seq<(Path, seq<bv8>)>, q: Path)
    requires volume.Dir? && WriteAll(volume, ws).Success?
    requires forall j :: 0 <= j < |ws| ==> ws[j].0 != q
    requires Lookup(volume, q).Some? && Lookup(volume, q).value.File?
    ensures Lookup(WriteAll(volume, ws).value, q) == Lookup(volume, q)
    decreases |ws|
  {
    if ws != [] {
      WriteKeepsOtherFiles(volume, ws[0].0, ws[0].1, q);
      WriteAllKeeps(Write(volume, ws[0].0, ws[0].1).value, ws[1..], q);
    }
  }

  /** A path written for the last time holds the bytes of that write. */
  lemma {:induction false} WriteAllHolds(volume: Node, ws: seq<(Path, seq<bv8>)>, j: int)
    requires volume.Dir? && WriteAll(volume, ws).Success?
    requires 0 <= j < |ws| && forall i :: j < i < |ws| ==> ws[i].0 != ws[j].0
    ensures Lookup(WriteAll(volume, ws).value, ws[j].0) == Some(File(LastName(ws[j].0), ws[j].1))
    decreases |ws|
  {
    var v := Write(volume, ws[0].0, ws[0].1).value;
    if j == 0 {
      WriteThenLookup(volume, ws[0].0, ws[0].1);
      WriteAllKeeps(v, ws[1..], ws[0].0);
    } else {
      WriteAllHolds(v, ws[1..], j - 1);
    }
  }

  /**
   * After a put, every file it wrote for the last time holds the bytes received for it, and
   * every other file of the volume is as it was.
   */
  lemma UploadsEffect(volume: Node, localDir: Path, names: seq<string>, closed: bool, input: seq<Received>,
                      sha256: seq<bv8> -> seq<bv8>, putEndHash: seq<bv8> -> Option<string>)
    requires volume.Dir?
    ensures var p := Uploads(volume, localDir, names, closed, input, sha256, putEndHash);
      && (forall j :: 0 <= j < |p.written| && (forall i :: j < i < |p.written| ==> p.written[i].0 != p.written[j].0) ==>
            Lookup(p.volume, p.written[j].0) == Some(File(LastName(p.written[j].0), p.written[j].1)))
      && (forall q :: Lookup(volume, q).Some? && Lookup(volume, q).value.File? &&
                      (forall j :: 0 <= j < |p.written| ==> p.written[j].0 != q) ==>
            Lookup(p.volume, q) == Lookup(volume, q))
  {
    var p := Uploads(volume, localDir, names, closed, input, sha256, putEndHash);
    UploadsWriteAll(volume, localDir, names, closed, input, sha256, putEndHash);
    var v := WriteAll(volume, p.written).value;
    forall j | 0 <= j < |p.written| && (forall i :: j < i < |p.written| ==> p.written[i].0 != p.written[j].0)
      ensures Lookup(p.volume, p.written[j].0) == Some(File(LastName(p.written[j].0), p.written[j].1))
    {
      WriteAllHolds(volume, p.written, j);
      if p.volume != v {
        MakeDirKeepsFiles(v, PutTarget(localDir, names[|p.written|]).path, p.written[j].0);
      }
    }
    forall q | Lookup(volume, q).Some? && Lookup(volume, q).value.File? &&
               (forall j :: 0 <= j < |p.written| ==> p.written[j].0 != q)
      ensures Lookup(p.volume, q) == Lookup(volume, q)
    {
      WriteAllKeeps(volume, p.written, q);
      if p.volume != v {
        MakeDirKeepsFiles(v, PutTarget(localDir, names[|p.written|]).path, q);
      }
    }
  }

  // ------------------------------------------------------------------ the session

  /** MegabitPerSecondLimit = BytesPerSecondLimit / 1_000_000 * 8. */
  function MegabitsPerSecond(bytesPerSecondLimit: int): real
  {
    bytesPerSecondLimit as real / 1000000.0 * 8.0
  }

  function NotMapped(typeName: string): Reply
  {
    ErrorReply("CommandType." + typeName + " is not mapped for handling.")
  }

  /** The exceptions that end a session. */
  const Thrown := {DirectoryNotFound, ArgumentNull, IOException, UnauthorizedAccess, WebSocketException, InvalidOperation}

  /** The counters after `texts` more text messages and `bytes` more binary bytes received. */
  function Receiving(c: Counters, texts: nat, bytes: nat): Counters
  {
    c.(textMessagesReceived := c.textMessagesReceived + texts, binaryBytesReceived := c.binaryBytesReceived + bytes)
  }

  /** No counter went down. */
  predicate Grew(a: Counters, b: Counters)
  {
    && a.textMessagesReceived <= b.textMessagesReceived && a.textMessagesSent <= b.textMessagesSent
    && a.binaryBytesSent <= b.binaryBytesSent && a.binaryBytesReceived <= b.binaryBytesReceived
  }

  /** The counters after `texts` more text replies and `bytes` more binary bytes sent. */
  function Sending(c: Counters, texts: nat, bytes: nat): Counters
  {
    c.(textMessagesSent := c.textMessagesSent + texts, binaryBytesSent := c.binaryBytesSent + bytes)
  }

  class Session {
    /** The directory the server was started in: cd never leaves it. */
    const root: Path
    /** options.BytesPerSecondLimit. */
    const bytesPerSecondLimit: int
    var localDir: Path
    var volume: Node
    /** The shared Status counters. */
    var counters: Counters
    /** The receive results still to come. */
    var input: seq<Received>
    /** The peer's close has been received; the socket receives nothing more. */
    var closed: bool
    var sent: seq<Frame>

    ghost predicate Valid()
      reads this
    {
      root <= localDir && volume.Dir?
    }

    constructor (root: Path, bytesPerSecondLimit: int, volume: Node, counters: Counters, input: seq<Received>)
      requires volume.Dir?
      ensures Valid()
      ensures this.root == root && this.bytesPerSecondLimit == bytesPerSecondLimit && localDir == root
      ensures this.volume == volume && this.counters == counters && this.input == input
      ensures !closed && sent == []
    {
      this.root := root;
      this.bytesPerSecondLimit := bytesPerSecondLimit;
      localDir := root;
      this.volume := volume;
      this.counters := counters;
      this.input := input;
      closed := false;
      sent := [];
    }

    /** ReceiveAsync: the next result, or a WebSocketException once the peer is gone or has closed. */
    method Receive() returns (r: Result<Received, string>)
      modifies this`input, this`closed
      ensures old(closed) || old(input) == [] ==>
        r == Failure(WebSocketException) && input == old(input) && closed == old(closed)
      ensures !old(closed) && old(input) != [] ==>
        r == Success(old(input)[0]) && input == old(input)[1..] && closed == old(input)[0].CloseReceived?
    {
      if closed || input == [] {
        return Failure(WebSocketException);
      }
      r := Success(input[0]);
      closed := input[0].CloseReceived?;
      input := input[1..];
    }

    /** A text reply, counted in textMessagesSent. */
    method SendText(m: Reply)
      modifies this`sent, this`counters
      ensures sent == old(sent) + [SentText(m)]
      ensures counters == Sending(old(counters), 1, 0)
    {
      sent := sent + [SentText(m)];
      counters := counters.(textMessagesSent := counters.textMessagesSent + 1);
    }

    /** HandleFileGetAsync for one file. */
    method SendFile(b: seq<bv8>, sha256: seq<bv8> -> seq<bv8>)
      modifies this`sent, this`counters
      ensures sent == old(sent) + FileTransfer(b, sha256)
      ensures counters == Sending(old(counters), 1, |b|)
    {
      var pos := 0;
      while pos < |b|
        invariant 0 <= pos <= |b|
        invariant sent + FramesFrom(b, pos) == old(sent) + FramesFrom(b, 0)
        invariant counters == Sending(old(counters), 0, pos)
        decreases |b| - pos
      {
        var n := ChunkAt(b, pos);
        assert FramesFrom(b, pos) == [SentBinary(b[pos..pos + n], pos + n == |b|)] + FramesFrom(b, pos + n);
        assert (sent + [SentBinary(b[pos..pos + n], pos + n == |b|)]) + FramesFrom(b, pos + n) == sent + FramesFrom(b, pos);
        sent := sent + [SentBinary(b[pos..pos + n], pos + n == |b|)];
        counters := counters.(binaryBytesSent := counters.binaryBytesSent + n);
        pos := pos + n;
      }
      assert sent + FramesFrom(b, pos) == sent;
      SendText(GetEndReply(EnumerableExtensions.ToLowercaseHash(sha256(b))));
    }

    /** HandleFileGetAsync: the files in order, each its frames and its GetEnd. */
    method SendFiles(sel: seq<Found>, sha256: seq<bv8> -> seq<bv8>)
      modifies this`sent, this`counters
      ensures sent == old(sent) + Transfers(sel, sha256)
      ensures counters == Sending(old(counters), |sel|, SumLengths(sel))
    {
      var i := 0;
      while i < |sel|
        invariant 0 <= i <= |sel|
        invariant sent == old(sent) + Transfers(sel[..i], sha256)
        invariant counters == Sending(old(counters), i, SumLengths(sel[..i]))
        decreases |sel| - i
      {
        SendNext(sel, i, sha256, old(sent), old(counters));
        i := i + 1;
      }
      assert sel[..i] == sel;
    }

    /** The i-th file of the selection, after the ones before it. */
    method SendNext(sel: seq<Found>, i: int, sha256: seq<bv8> -> seq<bv8>, ghost sent0: seq<Frame>, ghost counters0: Counters)
      requires 0 <= i < |sel|
      requires sent == sent0 + Transfers(sel[..i], sha256)
      requires counters == Sending(counters0, i, SumLengths(sel[..i]))
      modifies this`sent, this`counters
      ensures sent == sent0 + Transfers(sel[..i + 1], sha256)
      ensures counters == Sending(counters0, i + 1, SumLengths(sel[..i + 1]))
    {
      TransfersStep(sel, i, sha256, sent0);
      SendFile(sel[i].bytes, sha256);
    }

    /**
     * The do-while of HandleFilePutAsync: receive until a result ends the message, counting
     * and collecting every result's bytes.
     */
    method ReceiveData() returns (got: seq<bv8>, r: Result<(), string>)
      modifies this`input, this`closed, this`counters
      ensures old(closed) ==> r == Failure(WebSocketException) && got == [] && input == old(input) && closed
      ensures !old(closed) ==> var k := MessageEnd(old(input));
        && (k < 0 ==> r == Failure(WebSocketException) && got == Payloads(old(input)) && input == [] && !closed)
        && (k >= 0 ==> r.Success? && got == Payloads(old(input)[..k + 1]) && input == old(input)[k + 1..]
                       && closed == old(input)[k].CloseReceived?)
      ensures counters == Receiving(old(counters), 0, |got|)
    {
      got := [];
      if closed {
        return got, Failure(WebSocketException);
      }
      ghost var taken := 0;
      while true
        invariant Collected(old(input), taken, got)
        invariant input == old(input)[taken..] && !closed
        invariant counters == Receiving(old(counters), 0, |got|)
        decreases |input|
      {
        var rr := Receive();
        if rr.Failure? {
          CollectedAll(old(input), got);
          return got, Failure(WebSocketException);
        }
        CollectedStep(old(input), taken, got);
        got := got + BytesOf(rr.value);
        counters := Receiving(counters, 0, |BytesOf(rr.value)|);
        taken := taken + 1;
        if Ends(rr.value) {
          return got, Success(());
        }
      }
    }

    /** The put-end message: one text frame carrying the client's hash, compared with `actual`. */
    method CheckPutEnd(actual: string, putEndHash: seq<bv8> -> Option<string>) returns (r: Result<(), string>)
      modifies this`input, this`closed, this`counters, this`sent
      ensures var e := PutEndCheck(old(input), old(closed), actual, putEndHash);
        && r == e.r && input == e.input && closed == e.closed
        && sent == old(sent) + e.closes && counters == Receiving(old(counters), e.texts, 0)
    {
      var rr := Receive();
      if rr.Failure? {
        return Failure(rr.error);
      }
      counters := Receiving(counters, 1, 0);
      if !Ends(rr.value) {
        sent := sent + [SentClose(PolicyViolation, TextNotInFull)];
        return Failure(InvalidOperation);
      }
      if !HashAccepted(putEndHash(BytesOf(rr.value)), actual) {
        sent := sent + [SentClose(InvalidPayloadData, IncorrectData)];
        return Failure(InvalidOperation);
      }
      return Success(());
    }

    /**
     * One file of HandleFilePutAsync: the directory is created and the file opened before
     * anything is received (a target that is itself a directory is created and then cannot be
     * opened); then the file holds exactly the bytes received (the corrected
     * PutContent, not OpenWrite's untruncated content), and the put-end's hash is checked
     * against theirs.
     */
    method ReceiveFile(target: Target, sha256: seq<bv8> -> seq<bv8>, putEndHash: seq<bv8> -> Option<string>)
      returns (got: seq<bv8>, r: Result<(), string>)
      requires volume.Dir?
      modifies this`input, this`closed, this`counters, this`sent, this`volume
      ensures volume.Dir?
      ensures var u := UploadOf(old(volume), target, old(closed), old(input), sha256, putEndHash);
        && r == u.r && got == u.got && volume == u.volume && input == u.input && closed == u.closed
        && sent == old(sent) + u.closes && counters == Receiving(old(counters), u.texts, |u.got|)
    {
      ghost var input0, closed0 := input, closed;
      if target.directory {
        var made := MakeDir(volume, target.path);
        if made.Failure? {
          return [], Failure(made.error);
        }
        volume := made.value;
        return [], Failure(UnauthorizedAccess);
      }
      var created := Write(volume, target.path, []);
      if created.Failure? {
        UploadOfNotCreated(volume, target, closed, input, sha256, putEndHash);
        return [], Failure(created.error);
      }
      var before := volume;
      got, r := ReceiveData();
      UploadOfReceived(before, target, closed0, input0, sha256, putEndHash, got, r, input, closed);
      volume := Write(before, target.path, got).value;
      if r.Failure? {
        return;
      }
      r := CheckPutEnd(EnumerableExtensions.ToLowercaseHash(sha256(got)), putEndHash);
    }

    /** motd: the current directory, the limit in megabits per second, and the counters so far. */
    method Motd()
      modifies this`sent, this`counters
      ensures old(sent) <= sent && Grew(old(counters), counters)
      ensures sent == old(sent) + [SentText(MotdReply(FullName(localDir), MegabitsPerSecond(bytesPerSecondLimit), old(counters)))]
      ensures counters == Sending(old(counters), 1, 0)
    {
      SendText(MotdReply(FullName(localDir), MegabitsPerSecond(bytesPerSecondLimit), counters));
    }

    /** cd: the move and the reply Cd describes. */
    method ChangeDirectory(t: string) returns (r: Result<(), string>)
      requires Valid()
      modifies this`sent, this`counters, this`localDir
      ensures old(sent) <= sent && Grew(old(counters), counters)
      ensures Valid()
      ensures var cd := Cd(volume, root, old(localDir), t);
        && (cd.Failure? ==> r == Failure(cd.error) && localDir == old(localDir) && sent == old(sent) && counters == old(counters))
        && (cd.Success? ==> r.Success? && localDir == cd.value.0 && sent == old(sent) + [SentText(cd.value.1)]
                            && counters == Sending(old(counters), 1, 0))
    {
      var cd := Cd(volume, root, localDir, t);
      if cd.Failure? {
        return Failure(cd.error);
      }
      CdConfined(volume, root, localDir, t);
      localDir := cd.value.0;
      SendText(cd.value.1);
      return Success(());
    }

    /** ls: the listing of the current directory. */
    method List() returns (r: Result<(), string>)
      modifies this`sent, this`counters
      ensures old(sent) <= sent && Grew(old(counters), counters)
      ensures var l := Listing(volume, localDir);
        && (l.Failure? ==> r == Failure(l.error) && sent == old(sent) && counters == old(counters))
        && (l.Success? ==> r.Success? && sent == old(sent) + [SentText(l.value)] && counters == Sending(old(counters), 1, 0))
    {
      var l := Listing(volume, localDir);
      if l.Failure? {
        return Failure(l.error);
      }
      SendText(l.value);
      return Success(());
    }

    /**
     * get: an Error and nothing else when no file qualifies; otherwise the reply listing the
     * selection, then every selected file's transfer in the same order.
     */
    method Get(pattern: string, matches: (string, string) -> bool, sha256: seq<bv8> -> seq<bv8>)
      returns (r: Result<(), string>)
      modifies this`sent, this`counters
      ensures old(sent) <= sent && Grew(old(counters), counters)
      ensures var s := Selection(volume, localDir, pattern, matches);
        && (s.Failure? ==> r == Failure(s.error) && sent == old(sent) && counters == old(counters))
        && (s.Success? && s.value == [] ==>
              r.Success? && sent == old(sent) + [SentText(NoFilesFound(localDir, pattern))]
              && counters == Sending(old(counters), 1, 0))
        && (s.Success? && s.value != [] ==>
              r.Success? && sent == old(sent) + [SentText(GetReply(GetEntries(localDir, s.value)))] + Transfers(s.value, sha256)
              && counters == Sending(old(counters), 1 + |s.value|, SumLengths(s.value)))
    {
      var s := Selection(volume, localDir, pattern, matches);
      if s.Failure? {
        return Failure(s.error);
      }
      if s.value == [] {
        SendText(NoFilesFound(localDir, pattern));
        return Success(());
      }
      SendSelection(s.value, sha256);
      return Success(());
    }

    /** The get reply listing a non-empty selection, then the files. */
    method SendSelection(sel: seq<Found>, sha256: seq<bv8> -> seq<bv8>)
      modifies this`sent, this`counters
      ensures sent == old(sent) + [SentText(GetReply(GetEntries(localDir, sel)))] + Transfers(sel, sha256)
      ensures counters == Sending(old(counters), 1 + |sel|, SumLengths(sel))
    {
      SendText(GetReply(GetEntries(localDir, sel)));
      SendFiles(sel, sha256);
    }

    /**
     * put: the files in order, each at the path its name designates below the current
     * directory; the first failure aborts the files after it.
     */
    method Put(names: seq<string>, sha256: seq<bv8> -> seq<bv8>, putEndHash: seq<bv8> -> Option<string>)
      returns (r: Result<(), string>)
      requires Valid()
      modifies this`input, this`closed, this`counters, this`sent, this`volume
      ensures Valid()
      ensures |input| <= |old(input)| && old(sent) <= sent && Grew(old(counters), counters)
      ensures counters.textMessagesSent == old(counters).textMessagesSent
      ensures counters.binaryBytesSent == old(counters).binaryBytesSent
      ensures r.Failure? ==> r.error in {ArgumentNull, IOException, UnauthorizedAccess, WebSocketException, InvalidOperation}
      ensures r == Failure(InvalidOperation) ==>
        |sent| > 0 && sent[|sent| - 1] in {SentClose(PolicyViolation, TextNotInFull), SentClose(InvalidPayloadData, IncorrectData)}
      ensures r != Failure(InvalidOperation) ==> sent == old(sent)
      ensures var p := Uploads(old(volume), localDir, names, old(closed), old(input), sha256, putEndHash);
        && r == p.r && volume == p.volume && input == p.input && closed == p.closed
        && sent == old(sent) + p.closes && counters == Receiving(old(counters), p.texts, p.bytes)
    {
      ghost var v0, c0, i0, s0, n0 := volume, closed, input, sent, counters;
      r := PutFiles(names, sha256, putEndHash);
      PutSummary(v0, localDir, names, c0, i0, sha256, putEndHash, r, input, s0, sent, n0, counters);
    }

    /** The loop of put: each name in turn, stopping at the first that fails. */
    method PutFiles(names: seq<string>, sha256: seq<bv8> -> seq<bv8>, putEndHash: seq<bv8> -> Option<string>)
      returns (r: Result<(), string>)
      requires Valid()
      modifies this`input, this`closed, this`counters, this`sent, this`volume
      ensures Valid()
      ensures var p := Uploads(old(volume), localDir, names, old(closed), old(input), sha256, putEndHash);
        && r == p.r && volume == p.volume && input == p.input && closed == p.closed
        && sent == old(sent) + p.closes && counters == Receiving(old(counters), p.texts, p.bytes)
    {
      ghost var v0, c0, i0, s0, n0 := volume, closed, input, sent, counters;
      var i := 0;
      ghost var texts: nat, bytes: nat, written: seq<(Path, seq<bv8>)> := 0, 0, [];
      assert names[i..] == names;
      AfterNothing(Uploads(v0, localDir, names, c0, i0, sha256, putEndHash));
      while i < |names|
        invariant 0 <= i <= |names|
        invariant Valid() && localDir == old(localDir) && sent == s0
        invariant counters == Receiving(n0, texts, bytes)
        invariant Uploads(v0, localDir, names, c0, i0, sha256, putEndHash)
                  == After(Uploads(volume, localDir, names[i..], closed, input, sha256, putEndHash), texts, bytes, written)
        decreases |names| - i
      {
        r, texts, bytes, written := PutNext(names, i, sha256, putEndHash, v0, c0, i0, s0, n0, texts, bytes, written);
        if r.Failure? {
          return;
        }
        i := i + 1;
      }
      UploadsDone(v0, localDir, names, c0, i0, sha256, putEndHash, volume, closed, input, texts, bytes, written);
      r := Success(());
    }

    /** One file of the put loop, after `texts`, `bytes` and `written` from the files before it. */
    method PutNext(names: seq<string>, i: int, sha256: seq<bv8> -> seq<bv8>, putEndHash: seq<bv8> -> Option<string>,
                   ghost v0: Node, ghost c0: bool, ghost i0: seq<Received>, ghost s0: seq<Frame>, ghost n0: Counters,
                   ghost texts: nat, ghost bytes: nat, ghost written: seq<(Path, seq<bv8>)>)
      returns (r: Result<(), string>, ghost texts': nat, ghost bytes': nat, ghost written': seq<(Path, seq<bv8>)>)
      requires Valid() && 0 <= i < |names| && v0.Dir?
      requires sent == s0 && counters == Receiving(n0, texts, bytes)
      requires Uploads(v0, localDir, names, c0, i0, sha256, putEndHash)
               == After(Uploads(volume, localDir, names[i..], closed, input, sha256, putEndHash), texts, bytes, written)
      modifies this`input, this`closed, this`counters, this`sent, this`volume
      ensures Valid()
      ensures r.Failure? ==>
        var p := Uploads(v0, localDir, names, c0, i0, sha256, putEndHash);
        && r == p.r && volume == p.volume && input == p.input && closed == p.closed
        && sent == s0 + p.closes && counters == Receiving(n0, p.texts, p.bytes)
      ensures r.Success? ==>
        && sent == s0 && counters == Receiving(n0, texts', bytes')
        && Uploads(v0, localDir, names, c0, i0, sha256, putEndHash)
           == After(Uploads(volume, localDir, names[i + 1..], closed, input, sha256, putEndHash), texts', bytes', written')
    {
      ghost var v, c, n := volume, closed, input;
      var got;
      got, r := ReceiveFile(PutTarget(localDir, names[i]), sha256, putEndHash);
      if r.Failure? {
        UploadsStop(v0, localDir, names, c0, i0, sha256, putEndHash, i, v, c, n, texts, bytes, written,
                    r, volume, closed, input, s0, sent, n0, counters);
        texts', bytes', written' := texts, bytes, written;
      } else {
        texts', bytes', written' := UploadsGoOn(v0, localDir, names, c0, i0, sha256, putEndHash, i, v, c, n, texts, bytes, written,
                                                r, volume, closed, input, s0, sent, n0, counters);
      }
    }

    /** A command of a type the server does not handle: one Error, and the session goes on. */
    method Unmapped(typeName: string)
      modifies this`sent, this`counters
      ensures old(sent) <= sent && Grew(old(counters), counters)
      ensures sent == old(sent) + [SentText(NotMapped(typeName))]
      ensures counters == Sending(old(counters), 1, 0)
    {
      SendText(NotMapped(typeName));
    }

    /** The switch on the command's type. */
    method Dispatch(c: Command, matches: (string, string) -> bool, sha256: seq<bv8> -> seq<bv8>,
                    putEndHash: seq<bv8> -> Option<string>)
      returns (r: Result<(), string>)
      requires Valid()
      modifies this`input, this`closed, this`counters, this`sent, this`volume, this`localDir
      ensures Valid()
      ensures |input| <= |old(input)| && old(sent) <= sent && Grew(old(counters), counters)
      ensures !c.PutCommand? ==> input == old(input) && volume == old(volume)
      ensures !c.CdCommand? ==> localDir == old(localDir)
      ensures c.Unmapped? ==> r.Success? && sent == old(sent) + [SentText(NotMapped(c.typeName))]
      ensures c.MotdCommand? ==>
        r.Success? && sent == old(sent) + [SentText(MotdReply(FullName(localDir), MegabitsPerSecond(bytesPerSecondLimit), old(counters)))]
      ensures c.CdCommand? ==> var cd := Cd(volume, root, old(localDir), c.target);
        && (cd.Failure? ==> r == Failure(cd.error) && localDir == old(localDir) && sent == old(sent))
        && (cd.Success? ==> r.Success? && localDir == cd.value.0 && sent == old(sent) + [SentText(cd.value.1)])
      ensures c.LsCommand? ==> var l := Listing(volume, localDir);
        && (l.Failure? ==> r == Failure(l.error) && sent == old(sent))
        && (l.Success? ==> r.Success? && sent == old(sent) + [SentText(l.value)])
      ensures c.GetCommand? ==> var s := Selection(volume, localDir, c.target, matches);
        && (s.Failure? ==> r == Failure(s.error) && sent == old(sent))
        && (s.Success? && s.value == [] ==> r.Success? && sent == old(sent) + [SentText(NoFilesFound(localDir, c.target))])
        && (s.Success? && s.value != [] ==>
              r.Success? && sent == old(sent) + [SentText(GetReply(GetEntries(localDir, s.value)))] + Transfers(s.value, sha256))
      ensures c.PutCommand? ==> var p := Uploads(old(volume), localDir, c.names, old(closed), old(input), sha256, putEndHash);
        && r == p.r && volume == p.volume && input == p.input && closed == p.closed && sent == old(sent) + p.closes
      ensures r.Failure? ==> r.error in Thrown
    {
      match c
      case MotdCommand =>
        Motd();
        return Success(());
      case CdCommand(t) =>
        r := ChangeDirectory(t);
      case LsCommand =>
        r := List();
      case GetCommand(t) =>
        r := Get(t, matches, sha256);
      case PutCommand(names) =>
        r := Put(names, sha256, putEndHash);
      case Unmapped(typeName) =>
        Unmapped(typeName);
        return Success(());
    }

    /**
     * One receive result at command level: the peer's close is echoed; a text message that
     * did not fit, or any binary message, closes with PolicyViolation; a whole text message is
     * counted and its command handled. `stop` says the loop ends.
     */
    method Step(m: Received, decode: seq<bv8> -> Command, matches: (string, string) -> bool,
                sha256: seq<bv8> -> seq<bv8>, putEndHash: seq<bv8> -> Option<string>)
      returns (stop: bool, r: Result<(), string>)
      requires Valid()
      modifies this`input, this`closed, this`counters, this`sent, this`volume, this`localDir
      ensures Valid()
      ensures |input| <= |old(input)| && old(sent) <= sent && Grew(old(counters), counters)
      ensures r.Failure? ==> stop && r.error in Thrown
      ensures m.CloseReceived? ==> stop && r.Success? && sent == old(sent) + [SentClose(m.status, m.description)]
      ensures m.Data? && m.messageType == TextMessage && !m.endOfMessage ==>
        stop && r.Success? && sent == old(sent) + [SentClose(PolicyViolation, TextNotInFull)]
      ensures m.Data? && m.messageType == BinaryMessage ==>
        stop && r.Success? && sent == old(sent) + [SentClose(PolicyViolation, BinaryWithoutTransfer)]
      ensures m.Data? && m.messageType == TextMessage && m.endOfMessage ==>
        stop == r.Failure? && counters.textMessagesReceived > old(counters).textMessagesReceived
      ensures m.Data? && m.messageType == TextMessage && m.endOfMessage && decode(m.payload).Unmapped? ==>
        !stop && sent == old(sent) + [SentText(NotMapped(decode(m.payload).typeName))]
      ensures stop && r.Success? ==> |sent| > |old(sent)| && sent[|sent| - 1].SentClose?
    {
      match m
      case CloseReceived(status, description) =>
        sent := sent + [SentClose(status, description)];
        return true, Success(());
      case Data(TextMessage, payload, endOfMessage) =>
        if !endOfMessage {
          sent := sent + [SentClose(PolicyViolation, TextNotInFull)];
          return true, Success(());
        }
        counters := Receiving(counters, 1, 0);
        r := Dispatch(decode(payload), matches, sha256, putEndHash);
        return r.Failure?, r;
      case Data(BinaryMessage, _, _) =>
        sent := sent + [SentClose(PolicyViolation, BinaryWithoutTransfer)];
        return true, Success(());
    }

    /**
     * HandleAsync: receive and handle until the peer closes or a close is sent; an exception
     * ends the session as a failure. The current directory never leaves the root, nothing
     * sent is taken back, and the counters only grow.
     */
    method Handle(decode: seq<bv8> -> Command, matches: (string, string) -> bool,
                  sha256: seq<bv8> -> seq<bv8>, putEndHash: seq<bv8> -> Option<string>)
      returns (r: Result<(), string>)
      requires Valid()
      modifies this
      ensures Valid() && root <= localDir
      ensures old(sent) <= sent && Grew(old(counters), counters)
      ensures r.Success? ==> |sent| > |old(sent)| && sent[|sent| - 1].SentClose?
      ensures r.Failure? ==> r.error in Thrown
    {
      var next := Receive();
      while true
        invariant Valid() && old(sent) <= sent && Grew(old(counters), counters)
        invariant next.Failure? ==> next.error == WebSocketException
        decreases |input| + (if next.Success? then 1 else 0)
      {
        if next.Failure? {
          return Failure(next.error);
        }
        var stop;
        stop, r := Step(next.value, decode, matches, sha256, putEndHash);
        if stop {
          return;
        }
        next := Receive();
      }
    }
  }
}
