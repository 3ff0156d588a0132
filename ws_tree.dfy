/**
 * The directory tree the file server serves from, as a value: a volume is a root directory
 * node, and a path is the sequence of names from the volume root. DirectoryInfo.FullName of a
 * path is its names each preceded by '\' (the drive prefix, a constant, is left out).
 */
module DirectoryTree {

  import opened Wrappers

  datatype Node = File(name: string, bytes: seq<bv8>) | Dir(name: string, children: seq<Node>)

  type Path = seq<string>

  const ArgumentNull := "ArgumentNullException"
  const IOException := "IOException"
  const UnauthorizedAccess := "UnauthorizedAccessException"

  // ------------------------------------------------------------------ full names

  function FullName(p: Path): (s: string)
    decreases |p|
  {
    if p == [] then "" else FullName(p[..|p| - 1]) + "\\" + p[|p| - 1]
  }

  lemma {:induction false} FullNameAppend(p: Path, q: Path)
    ensures FullName(p + q) == FullName(p) + FullName(q)
    decreases |q|
  {
    if q == [] {
      assert p + q == p;
    } else {
      var n := |q| - 1;
      assert (p + q)[..|p + q| - 1] == p + q[..n] && (p + q)[|p + q| - 1] == q[n];
      FullNameAppend(p, q[..n]);
      assert FullName(p + q) == FullName(p) + (FullName(q[..n]) + "\\" + q[n]);
    }
  }

  /** A descendant's full name is strictly longer than its ancestor's exactly when it is a proper one. */
  lemma FullNameLonger(p: Path, q: Path)
    ensures |FullName(p + q)| > |FullName(p)| <==> q != []
  {
    FullNameAppend(p, q);
    if q != [] {
      var n := |q| - 1;
      assert |FullName(q)| == |FullName(q[..n])| + 1 + |q[n]|;
    }
  }

  // ------------------------------------------------------------------ finding children

  /** The index of the first child with this name, or -1. */
  function Find(cs: seq<Node>, name: string): (k: int)
    ensures -1 <= k < |cs|
    ensures k >= 0 ==> cs[k].name == name
    decreases |cs|
  {
    if cs == [] then -1
    else if cs[0].name == name then 0
    else
      var k := Find(cs[1..], name);
      if k < 0 then -1 else k + 1
  }

  lemma {:induction false} FindFirst(cs: seq<Node>, name: string, i: int)
    requires 0 <= i < |cs| && cs[i].name == name
    ensures 0 <= Find(cs, name) <= i
    decreases |cs|
  {
    if cs[0].name != name {
      FindFirst(cs[1..], name, i - 1);
    }
  }

  /** The same names in the same places are found at the same index. */
  lemma {:induction false} FindSameNames(cs: seq<Node>, ds: seq<Node>, name: string)
    requires |cs| == |ds| && forall i :: 0 <= i < |cs| ==> cs[i].name == ds[i].name
    ensures Find(cs, name) == Find(ds, name)
    decreases |cs|
  {
    if cs != [] && cs[0].name != name {
      FindSameNames(cs[1..], ds[1..], name);
    }
  }

  /** A child appended under another name does not change what a name finds. */
  lemma {:induction false} FindAppend(cs: seq<Node>, x: Node, name: string)
    requires x.name != name
    ensures Find(cs + [x], name) == Find(cs, name)
    decreases |cs|
  {
    if cs == [] {
      assert Find([x][1..], name) == -1;
    } else if cs[0].name != name {
      assert (cs + [x])[1..] == cs[1..] + [x];
      FindAppend(cs[1..], x, name);
    }
  }

  /** The node at a path, if every name on the way is a directory's child. */
  function Lookup(n: Node, p: Path): (r: Option<Node>)
    decreases |p|
  {
    if p == [] then Some(n)
    else if n.File? then None
    else
      var k := Find(n.children, p[0]);
      if k < 0 then None else Lookup(n.children[k], p[1..])
  }

  lemma {:induction false} LookupAppend(n: Node, p: Path, q: Path)
    requires Lookup(n, p).Some?
    ensures Lookup(n, p + q) == Lookup(Lookup(n, p).value, q)
    decreases |p|
  {
    if p == [] {
      assert p + q == q;
    } else {
      var k := Find(n.children, p[0]);
      assert (p + q)[0] == p[0] && (p + q)[1..] == p[1..] + q;
      LookupAppend(n.children[k], p[1..], q);
    }
  }

  // ------------------------------------------------------------------ writing a file

  /**
   * Directory.CreateDirectory of the parent, then the file written with `bytes`: missing
   * directories on the way are created, a file in the way throws IOException, and a directory
   * at the target throws UnauthorizedAccessException.
   */
  function WriteIn(cs: seq<Node>, p: Path, bytes: seq<bv8>): (r: Result<seq<Node>, string>)
    requires p != []
    ensures r.Failure? ==> r.error == IOException || r.error == UnauthorizedAccess
    decreases |p|
  {
    var k := Find(cs, p[0]);
    if |p| == 1 then
      if k < 0 then Success(cs + [File(p[0], bytes)])
      else if cs[k].Dir? then Failure(UnauthorizedAccess)
      else Success(cs[k := File(p[0], bytes)])
    else if k < 0 then
      var sub := WriteIn([], p[1..], bytes);
      if sub.Failure? then sub else Success(cs + [Dir(p[0], sub.value)])
    else if cs[k].File? then Failure(IOException)
    else
      var sub := WriteIn(cs[k].children, p[1..], bytes);
      if sub.Failure? then sub else Success(cs[k := Dir(p[0], sub.value)])
  }

  /** The file write on a whole volume; the volume root itself has no parent (ArgumentNullException). */
  function Write(volume: Node, p: Path, bytes: seq<bv8>): (r: Result<Node, string>)
    requires volume.Dir?
    ensures r.Success? ==> r.value.Dir? && r.value.name == volume.name
    ensures r.Failure? ==> r.error in {ArgumentNull, IOException, UnauthorizedAccess}
  {
    if p == [] then Failure(ArgumentNull)
    else
      var cs := WriteIn(volume.children, p, bytes);
      if cs.Failure? then Failure(cs.error) else Success(Dir(volume.name, cs.value))
  }

  /** Nothing is ever in the way below a directory that did not exist. */
  lemma {:induction false} WriteInFresh(p: Path, bytes: seq<bv8>)
    requires p != []
    ensures WriteIn([], p, bytes).Success?
    decreases |p|
  {
    if |p| > 1 {
      WriteInFresh(p[1..], bytes);
    }
  }

  /** Whether a write succeeds depends on the path, not on the bytes. */
  lemma {:induction false} WriteInAnyBytes(cs: seq<Node>, p: Path, a: seq<bv8>, b: seq<bv8>)
    requires p != []
    ensures WriteIn(cs, p, a).Success? == WriteIn(cs, p, b).Success?
    decreases |p|
  {
    if |p| > 1 {
      var k := Find(cs, p[0]);
      if k < 0 {
        WriteInAnyBytes([], p[1..], a, b);
      } else if cs[k].Dir? {
        WriteInAnyBytes(cs[k].children, p[1..], a, b);
      }
    }
  }

  lemma WriteAnyBytes(volume: Node, p: Path, a: seq<bv8>, b: seq<bv8>)
    requires volume.Dir?
    ensures Write(volume, p, a).Success? == Write(volume, p, b).Success?
  {
    if p != [] {
      WriteInAnyBytes(volume.children, p, a, b);
    }
  }

  /** After a write the path holds a file with exactly the bytes written. */
  lemma {:induction false} WriteThenLookup(volume: Node, p: Path, bytes: seq<bv8>)
    requires volume.Dir? && Write(volume, p, bytes).Success?
    ensures Lookup(Write(volume, p, bytes).value, p) == Some(File(p[|p| - 1], bytes))
  {
    WriteInThenLookup(volume.children, p, bytes);
  }

  lemma {:induction false} WriteInThenLookup(cs: seq<Node>, p: Path, bytes: seq<bv8>)
    requires p != [] && WriteIn(cs, p, bytes).Success?
    ensures Lookup(Dir("", WriteIn(cs, p, bytes).value), p) == Some(File(p[|p| - 1], bytes))
    decreases |p|
  {
    var k := Find(cs, p[0]);
    var ds := WriteIn(cs, p, bytes).value;
    if |p| == 1 {
      if k < 0 {
        FindFirst(ds, p[0], |cs|);
        FindAbsent(cs, p[0]);
      } else {
        FindSameNames(cs, ds, p[0]);
      }
    } else {
      var sub := if k < 0 then WriteIn([], p[1..], bytes).value else WriteIn(cs[k].children, p[1..], bytes).value;
      WriteInThenLookup(if k < 0 then [] else cs[k].children, p[1..], bytes);
      if k < 0 {
        FindFirst(ds, p[0], |cs|);
        FindAbsent(cs, p[0]);
      } else {
        FindSameNames(cs, ds, p[0]);
      }
      assert p[1..][|p[1..]| - 1] == p[|p| - 1];
    }
  }

  /** When no child has the name, the first match in cs + [x] is x itself. */
  lemma {:induction false} FindAbsent(cs: seq<Node>, name: string)
    requires Find(cs, name) < 0
    ensures forall x: Node :: x.name == name ==> Find(cs + [x], name) == |cs|
    decreases |cs|
  {
    forall x: Node | x.name == name
      ensures Find(cs + [x], name) == |cs|
    {
      if cs != [] {
        assert (cs + [x])[1..] == cs[1..] + [x];
        FindAbsent(cs[1..], name);
      }
    }
  }

  /** A write changes no file at any other path. */
  lemma {:induction false} WriteKeepsOtherFiles(volume: Node, p: Path, bytes: seq<bv8>, q: Path)
    requires volume.Dir? && Write(volume, p, bytes).Success?
    requires q != p && Lookup(volume, q).Some? && Lookup(volume, q).value.File?
    ensures Lookup(Write(volume, p, bytes).value, q) == Lookup(volume, q)
  {
    WriteInKeeps(volume.children, p, bytes, q);
  }

  lemma {:induction false} WriteInKeeps(cs: seq<Node>, p: Path, bytes: seq<bv8>, q: Path)
    requires p != [] && WriteIn(cs, p, bytes).Success?
    requires q != p && Lookup(Dir("", cs), q).Some? && Lookup(Dir("", cs), q).value.File?
    ensures Lookup(Dir("", WriteIn(cs, p, bytes).value), q) == Lookup(Dir("", cs), q)
    decreases |p|
  {
    var ds := WriteIn(cs, p, bytes).value;
    var k := Find(cs, p[0]);
    if q[0] != p[0] {
      var x := if k < 0 then (if |p| == 1 then File(p[0], bytes) else Dir(p[0], WriteIn([], p[1..], bytes).value))
               else ds[k];
      if k < 0 {
        FindAppend(cs, x, q[0]);
      } else {
        FindSameNames(cs, ds, q[0]);
      }
    } else {
      // the path goes through the same child, which already existed since q's does
      FindSameNames(cs, ds, p[0]);
      assert k >= 0;
      assert |q| > 1;
      assert |p| > 1;
      assert q == [q[0]] + q[1..] && p == [p[0]] + p[1..];
      WriteInKeeps(cs[k].children, p[1..], bytes, q[1..]);
    }
  }

  // ------------------------------------------------------------------ creating a directory

  /**
   * Directory.CreateDirectory below a directory's children: missing directories on the way,
   * the last one included, are created, existing ones are kept, and a file in the way throws
   * IOException.
   */
  function MakeDirIn(cs: seq<Node>, p: Path): (r: Result<seq<Node>, string>)
    ensures r.Failure? ==> r.error == IOException
    decreases |p|
  {
    if p == [] then Success(cs)
    else
      var k := Find(cs, p[0]);
      if k < 0 then
        var sub := MakeDirIn([], p[1..]);
        if sub.Failure? then sub else Success(cs + [Dir(p[0], sub.value)])
      else if cs[k].File? then Failure(IOException)
      else
        var sub := MakeDirIn(cs[k].children, p[1..]);
        if sub.Failure? then sub else Success(cs[k := Dir(p[0], sub.value)])
  }

  /** Directory.CreateDirectory on a whole volume; the volume root has no parent name (ArgumentNullException). */
  function MakeDir(volume: Node, p: Path): (r: Result<Node, string>)
    requires volume.Dir?
    ensures r.Success? ==> r.value.Dir? && r.value.name == volume.name
    ensures r.Failure? ==> r.error in {ArgumentNull, IOException}
  {
    if p == [] then Failure(ArgumentNull)
    else
      var cs := MakeDirIn(volume.children, p);
      if cs.Failure? then Failure(cs.error) else Success(Dir(volume.name, cs.value))
  }

  /** After CreateDirectory the path names a directory. */
  lemma {:induction false} MakeDirThenLookup(volume: Node, p: Path)
    requires volume.Dir? && MakeDir(volume, p).Success?
    ensures Lookup(MakeDir(volume, p).value, p).Some? && Lookup(MakeDir(volume, p).value, p).value.Dir?
  {
    MakeDirInThenLookup(volume.children, p);
  }

  lemma {:induction false} MakeDirInThenLookup(cs: seq<Node>, p: Path)
    requires MakeDirIn(cs, p).Success?
    ensures Lookup(Dir("", MakeDirIn(cs, p).value), p).Some? && Lookup(Dir("", MakeDirIn(cs, p).value), p).value.Dir?
    decreases |p|
  {
    if p != [] {
      var k := Find(cs, p[0]);
      var ds := MakeDirIn(cs, p).value;
      var sub := if k < 0 then MakeDirIn([], p[1..]).value else MakeDirIn(cs[k].children, p[1..]).value;
      MakeDirInThenLookup(if k < 0 then [] else cs[k].children, p[1..]);
      if k < 0 {
        FindFirst(ds, p[0], |cs|);
        FindAbsent(cs, p[0]);
      } else {
        FindSameNames(cs, ds, p[0]);
      }
      assert ds[Find(ds, p[0])] == Dir(p[0], sub);
    }
  }

  /** CreateDirectory changes no file. */
  lemma {:induction false} MakeDirKeepsFiles(volume: Node, p: Path, q: Path)
    requires volume.Dir? && MakeDir(volume, p).Success?
    requires Lookup(volume, q).Some? && Lookup(volume, q).value.File?
    ensures Lookup(MakeDir(volume, p).value, q) == Lookup(volume, q)
  {
    MakeDirInKeeps(volume.children, p, q);
  }

  lemma {:induction false} MakeDirInKeeps(cs: seq<Node>, p: Path, q: Path)
    requires MakeDirIn(cs, p).Success?
    requires Lookup(Dir("", cs), q).Some? && Lookup(Dir("", cs), q).value.File?
    ensures Lookup(Dir("", MakeDirIn(cs, p).value), q) == Lookup(Dir("", cs), q)
    decreases |p|
  {
    if p != [] {
      var ds := MakeDirIn(cs, p).value;
      var k := Find(cs, p[0]);
      if q[0] != p[0] {
        if k < 0 {
          FindAppend(cs, Dir(p[0], MakeDirIn([], p[1..]).value), q[0]);
        } else {
          FindSameNames(cs, ds, q[0]);
        }
      } else {
        FindSameNames(cs, ds, p[0]);
        assert k >= 0 && cs[k].Dir? && |q| > 1;
        assert q == [q[0]] + q[1..];
        MakeDirInKeeps(cs[k].children, p[1..], q[1..]);
      }
    }
  }

  // ------------------------------------------------------------------ listings

  /** A file found below a directory: the directory path relative to it, the name and the bytes. */
  datatype Found = Found(dir: Path, name: string, bytes: seq<bv8>)
  {
    function Rel(): Path { dir + [name] }
  }

  /** GetFiles("*", SearchOption.AllDirectories): every file below, each directory's files before its subdirectories'. */
  function FilesBelow(cs: seq<Node>, dir: Path): (fs: seq<Found>)
    decreases cs
  {
    if cs == [] then []
    else
      var first := match cs[0]
        case File(name, bytes) => [Found(dir, name, bytes)]
        case Dir(name, children) => FilesBelow(children, dir + [name]);
      first + FilesBelow(cs[1..], dir)
  }

  function SumLengths(fs: seq<Found>): (n: nat)
    decreases |fs|
  {
    if fs == [] then 0 else |fs[0].bytes| + SumLengths(fs[1..])
  }

  lemma {:induction false} SumLengthsAppend(a: seq<Found>, b: seq<Found>)
    ensures SumLengths(a + b) == SumLengths(a) + SumLengths(b)
    decreases |a|
  {
    if a == [] {
      assert a + b == b;
    } else {
      assert (a + b)[0] == a[0] && (a + b)[1..] == a[1..] + b;
      SumLengthsAppend(a[1..], b);
    }
  }

  /** The size of a subtree, by its own structure. */
  function Size(n: Node): nat
  {
    match n
    case File(_, bytes) => |bytes|
    case Dir(_, children) => SizeAll(children)
  }

  function SizeAll(cs: seq<Node>): nat
    decreases cs
  {
    if cs == [] then 0 else Size(cs[0]) + SizeAll(cs[1..])
  }

  /** The length ls reports for a directory, the sum over all files beneath it, is its size. */
  lemma {:induction false} FilesBelowSize(cs: seq<Node>, dir: Path)
    ensures SumLengths(FilesBelow(cs, dir)) == SizeAll(cs)
    decreases cs
  {
    if cs != [] {
      var first := match cs[0]
        case File(name, bytes) => [Found(dir, name, bytes)]
        case Dir(name, children) => FilesBelow(children, dir + [name]);
      SumLengthsAppend(first, FilesBelow(cs[1..], dir));
      FilesBelowSize(cs[1..], dir);
      if cs[0].Dir? {
        FilesBelowSize(cs[0].children, dir + [cs[0].name]);
      }
    }
  }
}
