/** The storage underneath the accessor, as a table from normalised absolute paths to
    entries, with the effect of each storage operation the accessor issues written as a
    function from the table before to the table after. */
module Volume {
  import opened Outcomes
  import opened Paths

  type Byte = bv8
  type Bytes = seq<Byte>

  /** An entry on disk: a regular file with its bytes, or a directory; both carry their
      modification time in milliseconds since the epoch. */
  datatype Node = File(data: Bytes, mtime: int) | Dir(mtime: int)

  type Tree = map<Path, Node>

  /** The directory holding `a`; the top directory is its own parent. */
  function Parent(a: Path): Path {
    if a == [] then [] else a[..|a| - 1]
  }

  /** Every entry is a normalised path whose parent is a directory entry. */
  ghost predicate WellFormed(t: Tree) {
    forall a :: a in t ==> IsNormal(a) && (a != [] ==> Parent(a) in t && t[Parent(a)].Dir?)
  }

  /** `d` is a proper ancestor of `a`. */
  predicate IsAncestor(d: Path, a: Path) {
    |d| < |a| && a[..|d|] == d
  }

  /** The immediate entries of directory `d`. */
  function Children(t: Tree, d: Path): set<Path> {
    set q | q in t && |q| == |d| + 1 && q[..|d|] == d
  }

  /** Every entry anywhere underneath `d`. */
  function Descendants(t: Tree, d: Path): set<Path> {
    set q | q in t && IsAncestor(d, q)
  }

  /** The regular files anywhere underneath `d`. */
  function FilesUnder(t: Tree, d: Path): set<Path> {
    set q | q in t && IsAncestor(d, q) && t[q].File?
  }

  function Min(x: nat, y: nat): nat {
    if x <= y then x else y
  }

  /** Every leading part of `a`, from the top directory to `a` itself. */
  function Prefixes(a: Path): set<Path> {
    set i | 0 <= i <= |a| :: a[..i]
  }

  // ---------------------------------------------------------------------------
  // Queries

  /** Contents of a regular file; anything else cannot be read. */
  function ReadAt(t: Tree, a: Path): Result<Bytes> {
    if a in t && t[a].File? then Success(t[a].data) else Error(IOError)
  }

  /** Size of a regular file; a directory or a missing entry has none. */
  function SizeAt(t: Tree, a: Path): Result<nat> {
    if a in t && t[a].File? then Success(|t[a].data|) else Error(IOError)
  }

  function MtimeAt(t: Tree, a: Path): Result<int> {
    if a in t then Success(t[a].mtime) else Error(IOError)
  }

  // ---------------------------------------------------------------------------
  // Storage operations

  /** create_directories: fails when some leading part of `a` (or `a` itself) is a regular
      file, and otherwise adds every missing leading part as a directory. */
  function MakeDirs(t: Tree, a: Path, now: int): Result<Tree> {
    if exists i :: 0 <= i <= |a| && a[..i] in t && t[a[..i]].File? then Error(IOError)
    else Success(map q | q in t.Keys + Prefixes(a) :: if q in t then t[q] else Dir(now))
  }

  /** Where the storage may fail during a write: creating the parent directories, opening
      the file, part-way through writing it after it was truncated, or when the stream's
      buffer is flushed as the stream is closed, after success has been reported. */
  datatype WriteFault = NoFault | DirsFault | OpenFault | ShortWrite(kept: nat) | LostAtClose(kept: nat)

  /** The status a state-changing operation reports and the table it leaves behind. */
  datatype Effect = Effect(status: Result<()>, after: Tree)

  /** Write `content` to `a`: create the parent directories, open in truncating mode (a
      directory cannot be opened), then write every byte. */
  function WriteFile(t: Tree, a: Path, content: Bytes, now: int, fault: WriteFault): Effect {
    match MakeDirs(t, Parent(a), now)
    case Error(k) => Effect(Error(k), t)
    case Success(dirs) =>
      if fault.DirsFault? then Effect(Error(IOError), t)
      else if (a in dirs && dirs[a].Dir?) || fault.OpenFault? then Effect(Error(IOError), dirs)
      else if fault.ShortWrite? then
        Effect(Error(IOError), dirs[a := File(content[..Min(fault.kept, |content|)], now)])
      else if fault.LostAtClose? then
        Effect(Success(()), dirs[a := File(content[..Min(fault.kept, |content|)], now)])
      else Effect(Success(()), dirs[a := File(content, now)])
  }

  /** remove: a missing entry is no error; a directory that still has entries cannot go. */
  function RemoveAt(t: Tree, a: Path): Result<Tree> {
    if a !in t then Success(t)
    else if t[a].Dir? && Children(t, a) != {} then Error(IOError)
    else Success(t - {a})
  }

  function SetMtimeAt(t: Tree, a: Path, time: int): Result<Tree> {
    if a !in t then Error(IOError)
    else Success(t[a := match t[a] case File(data, _) => File(data, time) case Dir(_) => Dir(time)])
  }

  // ---------------------------------------------------------------------------
  // Lemmas

  lemma {:induction false} AncestorsAreDirs(t: Tree, a: Path, n: nat)
    requires WellFormed(t) && a in t && n < |a|
    ensures a[..n] in t && t[a[..n]].Dir?
    decreases |a| - n
  {
    var p := Parent(a);
    assert p in t && t[p].Dir?;
    if n < |a| - 1 {
      AncestorsAreDirs(t, p, n);
      assert p[..n] == a[..n];
    }
  }

  lemma TopIsPrefix(p: Path)
    ensures p[..0] == []
  {
  }

  /** What create_directories does to the table. */
  lemma MakeDirsEffect(t: Tree, a: Path, now: int)
    requires WellFormed(t) && IsNormal(a)
    ensures MakeDirs(t, a, now).Success? <==> forall i :: 0 <= i <= |a| && a[..i] in t ==> t[a[..i]].Dir?
    ensures MakeDirs(t, a, now).Success? ==>
              var t' := MakeDirs(t, a, now).value;
              && WellFormed(t')
              && (forall i :: 0 <= i <= |a| ==> a[..i] in t' && t'[a[..i]].Dir?)
              && (forall q :: q in t ==> q in t' && t'[q] == t[q])
              && (forall q :: q in t' && q !in t ==> Within(q, a))
  {
    if MakeDirs(t, a, now).Success? {
      var t' := MakeDirs(t, a, now).value;
      forall i | 0 <= i <= |a| ensures a[..i] in t' && t'[a[..i]].Dir? {
        assert a[..i] in Prefixes(a);
      }
      forall q | q in t' && q !in t ensures Within(q, a) {
        var i :| 0 <= i <= |a| && q == a[..i];
      }
      forall q | q in t' ensures IsNormal(q) && (q != [] ==> Parent(q) in t' && t'[Parent(q)].Dir?) {
        if q !in t {
          var i :| 0 <= i <= |a| && q == a[..i];
          assert IsNormal(q) by {
            forall j | 0 <= j < |q| ensures IsName(q[j]) { assert q[j] == a[j]; }
          }
          if q != [] {
            assert Parent(q) == a[..i - 1];
          }
        }
      }
    }
  }

  /** Every outcome of a write, faults included, leaves a well-formed table. */
  lemma WriteFileWellFormed(t: Tree, a: Path, content: Bytes, now: int, fault: WriteFault)
    requires WellFormed(t) && IsNormal(a)
    ensures WellFormed(WriteFile(t, a, content, now, fault).after)
  {
    MakeDirsEffect(t, Parent(a), now);
    assert IsNormal(Parent(a)) by {
      forall j | 0 <= j < |Parent(a)| ensures IsName(Parent(a)[j]) { assert Parent(a)[j] == a[j]; }
    }
    MakeDirsEffect(t, Parent(a), now);
    if MakeDirs(t, Parent(a), now).Success? {
      var dirs := MakeDirs(t, Parent(a), now).value;
      if !fault.DirsFault? && !((a in dirs && dirs[a].Dir?) || fault.OpenFault?) {
        var node := if fault.ShortWrite? || fault.LostAtClose? then File(content[..Min(fault.kept, |content|)], now)
                    else File(content, now);
        assert WriteFile(t, a, content, now, fault).after == dirs[a := node];
        assert Parent(a)[..|Parent(a)|] == Parent(a);
        PutFileWellFormed(dirs, a, node);
      }
    }
  }

  /** Putting a regular file at `a`, whose parent is a directory and which is not itself a
      directory, keeps the table well-formed. */
  lemma PutFileWellFormed(t: Tree, a: Path, node: Node)
    requires WellFormed(t) && IsNormal(a) && node.File?
    requires Parent(a) in t && t[Parent(a)].Dir?
    requires !(a in t && t[a].Dir?)
    ensures WellFormed(t[a := node])
  {
    var t' := t[a := node];
    if a == [] {
      assert false;
    }
    forall q | q in t' && q != [] ensures Parent(q) in t' && t'[Parent(q)].Dir? {
      if q != a {
        assert Parent(q) != a;
      }
    }
  }

  /** A successful write: the file reads back as `content`, its size is the content's
      length, every ancestor is a directory, and every other entry is left as it was; the
      only new entries are the file and its ancestors. */
  lemma WriteRoundTrip(t: Tree, a: Path, content: Bytes, now: int)
    requires WellFormed(t) && IsNormal(a)
    requires WriteFile(t, a, content, now, NoFault).status.Success?
    ensures var t' := WriteFile(t, a, content, now, NoFault).after;
            && WellFormed(t')
            && ReadAt(t', a) == Success(content)
            && SizeAt(t', a) == Success(|content|)
            && (forall n :: 0 <= n < |a| ==> a[..n] in t' && t'[a[..n]].Dir?)
            && (forall q :: q in t && q != a ==> q in t' && t'[q] == t[q])
            && (forall q :: q in t' && q !in t ==> q == a || IsAncestor(q, a))
  {
    WriteFileWellFormed(t, a, content, now, NoFault);
    assert IsNormal(Parent(a)) by {
      forall j | 0 <= j < |Parent(a)| ensures IsName(Parent(a)[j]) { assert Parent(a)[j] == a[j]; }
    }
    MakeDirsEffect(t, Parent(a), now);
    var dirs := MakeDirs(t, Parent(a), now).value;
    var t' := WriteFile(t, a, content, now, NoFault).after;
    assert a != [] by {
      if a == [] {
        TopIsPrefix(Parent(a));
        assert false;
      }
    }
    forall n | 0 <= n < |a| ensures a[..n] in t' && t'[a[..n]].Dir? {
      assert a[..n] == Parent(a)[..n];
    }
    forall q | q in t' && q !in t ensures q == a || IsAncestor(q, a) {
      if q != a {
        assert Within(q, Parent(a));
        assert q == Parent(a)[..|q|] == a[..|q|];
      }
    }
  }

  /** A write whose buffered bytes are lost when the stream is closed leaves the same table
      as a fault-free write of the bytes that reached the file. */
  lemma LostAtCloseKeepsPrefix(t: Tree, a: Path, content: Bytes, now: int, kept: nat)
    ensures var lost := WriteFile(t, a, content, now, LostAtClose(kept));
            lost == WriteFile(t, a, content[..Min(kept, |content|)], now, NoFault)
  {
  }

  /** The source reports success before the stream is closed, so bytes lost at close go
      unnoticed: the write succeeds, yet the file does not read back as `content`. */
  lemma CloseLosesData(t: Tree, a: Path, content: Bytes, now: int, kept: nat)
    requires WellFormed(t) && IsNormal(a)
    requires WriteFile(t, a, content, now, NoFault).status.Success?
    requires kept < |content|
    ensures var e := WriteFile(t, a, content, now, LostAtClose(kept));
            e.status.Success? && ReadAt(e.after, a) == Success(content[..kept]) && ReadAt(e.after, a) != Success(content)
  {
    LostAtCloseKeepsPrefix(t, a, content, now, kept);
    WriteSucceedsExactly(t, a, content, now);
    WriteSucceedsExactly(t, a, content[..kept], now);
    WriteRoundTrip(t, a, content[..kept], now);
    assert |content[..kept]| != |content|;
  }

  /** A write that also checks the stream once it is closed: bytes lost at close are
      reported as an I/O error instead of success. */
  function WriteFileChecked(t: Tree, a: Path, content: Bytes, now: int, fault: WriteFault): Effect {
    var e := WriteFile(t, a, content, now, fault);
    if fault.LostAtClose? && Min(fault.kept, |content|) < |content| then Effect(Error(IOError), e.after)
    else e
  }

  /** With the check at close, every reported success, whatever the fault, leaves the file
      reading back exactly as `content`. */
  lemma CheckedWriteRoundTrip(t: Tree, a: Path, content: Bytes, now: int, fault: WriteFault)
    requires WellFormed(t) && IsNormal(a)
    ensures var e := WriteFileChecked(t, a, content, now, fault);
            e.status.Success? ==> WellFormed(e.after) && ReadAt(e.after, a) == Success(content)
  {
    var e := WriteFileChecked(t, a, content, now, fault);
    if e.status.Success? {
      if fault.LostAtClose? {
        LostAtCloseKeepsPrefix(t, a, content, now, fault.kept);
        assert content[..Min(fault.kept, |content|)] == content;
      }
      WriteSucceedsExactly(t, a, content, now);
      WriteRoundTrip(t, a, content, now);
    }
  }

  /** A write is refused (without faults) exactly when the target is the top directory or a
      directory, or some ancestor of it is a regular file. */
  lemma WriteSucceedsExactly(t: Tree, a: Path, content: Bytes, now: int)
    requires WellFormed(t) && IsNormal(a)
    ensures WriteFile(t, a, content, now, NoFault).status.Success? <==>
              && a != []
              && (forall n :: 0 <= n < |a| && a[..n] in t ==> t[a[..n]].Dir?)
              && !(a in t && t[a].Dir?)
  {
    assert IsNormal(Parent(a)) by {
      forall j | 0 <= j < |Parent(a)| ensures IsName(Parent(a)[j]) { assert Parent(a)[j] == a[j]; }
    }
    MakeDirsEffect(t, Parent(a), now);
    var ok := WriteFile(t, a, content, now, NoFault).status.Success?;
    if a != [] {
      assert forall n :: 0 <= n < |a| ==> a[..n] == Parent(a)[..n];
      if MakeDirs(t, Parent(a), now).Success? {
        var dirs := MakeDirs(t, Parent(a), now).value;
        assert a in dirs ==> a in t by {
          if a in dirs && a !in t {
            assert false;
          }
        }
      }
    } else {
      if MakeDirs(t, Parent(a), now).Success? {
        assert Parent(a)[..0] == a;
      }
    }
  }

  /** Writing truncates: a second write to the same file replaces its content and nothing
      else. */
  lemma OverwriteReplaces(t: Tree, a: Path, first: Bytes, second: Bytes, now1: int, now2: int)
    requires WellFormed(t) && IsNormal(a)
    requires WriteFile(t, a, first, now1, NoFault).status.Success?
    ensures var t1 := WriteFile(t, a, first, now1, NoFault).after;
            WriteFile(t1, a, second, now2, NoFault) == Effect(Success(()), t1[a := File(second, now2)])
  {
    WriteRoundTrip(t, a, first, now1);
    var t1 := WriteFile(t, a, first, now1, NoFault).after;
    assert a != [] by {
      if a == [] {
        TopIsPrefix(Parent(a));
        assert false;
      }
    }
    var p := Parent(a);
    forall i | 0 <= i <= |p| ensures p[..i] in t1 && t1[p[..i]].Dir? {
      assert p[..i] == a[..i];
    }
    MakeDirsExisting(t1, p, now2);
  }

  /** Creating directories that all exist already changes nothing. */
  lemma MakeDirsExisting(t: Tree, a: Path, now: int)
    requires forall i :: 0 <= i <= |a| ==> a[..i] in t && t[a[..i]].Dir?
    ensures MakeDirs(t, a, now) == Success(t)
  {
    assert !(exists i :: 0 <= i <= |a| && a[..i] in t && t[a[..i]].File?);
    forall q | q in Prefixes(a) ensures q in t {
      var i :| 0 <= i <= |a| && q == a[..i];
    }
    var t' := map q | q in t.Keys + Prefixes(a) :: if q in t then t[q] else Dir(now);
    assert t'.Keys == t.Keys;
    assert t' == t;
    assert MakeDirs(t, a, now) == Success(t');
  }

  /** Removing: a missing entry is success with nothing changed; a successful removal takes
      exactly that entry away, keeps the table well-formed, and removing again changes
      nothing; the only refusal is a directory that still has entries. */
  lemma RemoveEffect(t: Tree, a: Path)
    requires WellFormed(t)
    ensures a !in t ==> RemoveAt(t, a) == Success(t)
    ensures RemoveAt(t, a).Error? <==> a in t && t[a].Dir? && Children(t, a) != {}
    ensures RemoveAt(t, a).Success? ==>
              var t' := RemoveAt(t, a).value;
              && WellFormed(t')
              && a !in t'
              && (forall q :: q != a ==> (q in t' <==> q in t))
              && (forall q :: q in t' ==> t'[q] == t[q])
              && RemoveAt(t', a) == Success(t')
  {
    if a in t && !(t[a].Dir? && Children(t, a) != {}) {
      var t' := t - {a};
      forall q | q in t' && q != [] ensures Parent(q) in t' && t'[Parent(q)].Dir? {
        if Parent(q) == a {
          assert false;
        }
      }
    }
  }

  /** Setting a modification time: it reads back, contents and entries are untouched. */
  lemma SetMtimeRoundTrip(t: Tree, a: Path, time: int)
    requires WellFormed(t)
    ensures SetMtimeAt(t, a, time).Success? <==> a in t
    ensures SetMtimeAt(t, a, time).Success? ==>
              var t' := SetMtimeAt(t, a, time).value;
              && WellFormed(t')
              && MtimeAt(t', a) == Success(time)
              && t'.Keys == t.Keys
              && (forall q :: ReadAt(t', q) == ReadAt(t, q))
              && (forall q :: q in t && q != a ==> t'[q] == t[q])
  {
  }

  /** After a successful write the new file is among its parent's children and among the
      files underneath each of its ancestors. */
  lemma WrittenFileIsListed(t: Tree, a: Path, content: Bytes, now: int, d: Path)
    requires WellFormed(t) && IsNormal(a)
    requires WriteFile(t, a, content, now, NoFault).status.Success?
    requires IsAncestor(d, a)
    ensures var t' := WriteFile(t, a, content, now, NoFault).after;
            a in Children(t', Parent(a)) && a in FilesUnder(t', d)
  {
    WriteRoundTrip(t, a, content, now);
    assert a[..|Parent(a)|] == Parent(a);
  }

  /** A directory that is not there has nothing to list. */
  lemma MissingDirectoryIsEmpty(t: Tree, d: Path)
    requires WellFormed(t) && d !in t
    ensures Children(t, d) == {} && Descendants(t, d) == {}
  {
    forall q | q in t && IsAncestor(d, q) ensures false {
      AncestorsAreDirs(t, q, |d|);
    }
  }
}
