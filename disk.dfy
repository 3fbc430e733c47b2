/**
 * The file system as the commands see it: paths, byte contents, and the two
 * in-place operations they perform on files (`os.File.WriteAt` and the
 * truncating copy of `os.Create` + `io.Copy`).
 */
module Disk {
  import opened Digits

  newtype byte = x: int | 0 <= x < 256

  type Path = string

  /** The regular files that exist, with their contents. */
  type Files = map<Path, seq<byte>>

  /** The UTF-8 bytes of an ASCII string: one byte per character. */
  function AsciiBytes(s: string): (b: seq<byte>)
    requires Ascii(s)
    ensures |b| == |s| && forall i :: 0 <= i < |s| ==> b[i] as int == s[i] as int
  {
    seq(|s|, i requires 0 <= i < |s| => s[i] as int as byte)
  }

  /**
   * `filepath.Join(dir, name)` for a directory that is already clean (as
   * `filepath.Abs` returns it) and a name without separators (as
   * `os.ReadDir` and the layouts produce them).
   */
  function Join(dir: Path, name: string): Path {
    if dir == [] then name
    else if dir[|dir| - 1] == '/' then dir + name
    else dir + "/" + name
  }

  /** The joined path ends with the name, after the directory and at most one separator. */
  lemma JoinEndsWith(dir: Path, name: string)
    ensures var p := Join(dir, name);
      && |p| >= |name| && p[|p| - |name|..] == name
      && p[..|p| - |name|] == (if dir == [] || dir[|dir| - 1] == '/' then dir else dir + "/")
  {
    var p := Join(dir, name);
    if dir != [] && dir[|dir| - 1] != '/' {
      assert p == (dir + "/") + name;
    }
  }

  /** Joining a name to one directory loses nothing: different names give different paths. */
  lemma JoinInjective(dir: Path, a: string, b: string)
    requires Join(dir, a) == Join(dir, b)
    ensures a == b
  {
    var pa := Join(dir, a);
    JoinEndsWith(dir, a);
    JoinEndsWith(dir, b);
    assert |pa| - |a| == |pa| - |b|;
  }

  /**
   * The contents after `WriteAt(data, off)`: `data` overwrites the bytes from
   * `off` on, the file grows when `data` runs past its end, and a gap between
   * the old end and `off` reads as zero bytes.
   */
  function Splice(file: seq<byte>, off: nat, data: seq<byte>): (r: seq<byte>)
    ensures |r| == if off + |data| > |file| then off + |data| else |file|
    ensures forall i :: 0 <= i < |r| ==>
      r[i] == if off <= i < off + |data| then data[i - off] else if i < |file| then file[i] else 0
  {
    var padded := if off <= |file| then file else file + seq(off - |file|, _ => 0);
    padded[..off] + data + (if off + |data| < |padded| then padded[off + |data|..] else [])
  }

  /** A write that ends at or past the end of the file keeps the prefix and replaces the rest. */
  lemma SpliceAtTail(file: seq<byte>, off: nat, data: seq<byte>)
    requires off <= |file| <= off + |data|
    ensures Splice(file, off, data) == file[..off] + data
  {
    var r := Splice(file, off, data);
    assert |r| == |file[..off] + data|;
    forall i | 0 <= i < |r| ensures r[i] == (file[..off] + data)[i] {
    }
  }

  /** The mutable file system the commands work on. */
  class Disk {
    var files: Files

    constructor (initial: Files)
      ensures files == initial
    {
      files := initial;
    }

    /** `f.WriteAt(data, off)` on an open handle to `path`. */
    method WriteAt(path: Path, data: seq<byte>, off: nat)
      requires path in files
      modifies this
      ensures files == old(files)[path := Splice(old(files)[path], off, data)]
    {
      files := files[path := Splice(files[path], off, data)];
    }

    /** `os.Create(path)` followed by writing `data`: the file is truncated, then filled. */
    method Create(path: Path, data: seq<byte>)
      modifies this
      ensures files == old(files)[path := data]
    {
      files := files[path := data];
    }
  }
}
