/** The filesystem accessor confined to a root directory. */
module SapFs {
  import opened Outcomes
  import opened Paths
  import opened Volume

  /** A character of a byte string: the source's text is `std::string`, one byte per char. */
  type Char8 = c: char | c as int < 256 witness 'a'

  type Text = seq<Char8>

  /** The bytes of a text, one per character, value for value. */
  function BytesOf(s: Text): (b: Bytes)
    ensures |b| == |s| && forall i :: 0 <= i < |s| ==> b[i] as int == s[i] as int
  {
    seq(|s|, i requires 0 <= i < |s| => s[i] as int as Byte)
  }

  /** The text of some bytes, reinterpreted without any encoding check. */
  function CharsOf(b: Bytes): (s: Text)
    ensures |s| == |b| && forall i :: 0 <= i < |b| ==> s[i] as int == b[i] as int
  {
    seq(|b|, i requires 0 <= i < |b| => b[i] as int as char)
  }

  /** Text and bytes convert into each other without loss. */
  lemma TextBytesRoundTrip(s: Text, b: Bytes)
    ensures CharsOf(BytesOf(s)) == s
    ensures BytesOf(CharsOf(b)) == b
  {
    assert forall i :: 0 <= i < |s| ==> CharsOf(BytesOf(s))[i] as int == s[i] as int;
    assert forall i :: 0 <= i < |b| ==> BytesOf(CharsOf(b))[i] as int == b[i] as int;
  }

  /** An accessor for the files under `root`, over the storage `tree`. The root is fixed
      for the accessor's lifetime; every operation validates its argument first. */
  class Filesystem {
    const root: Path
    var tree: Tree

    ghost predicate Valid()
      reads this
    {
      IsNormal(root) && WellFormed(tree)
    }

    /** The root is taken as given; it need not exist. */
    constructor (root: Path, disk: Tree)
      requires IsNormal(root) && WellFormed(disk)
      ensures Valid() && this.root == root && tree == disk
    {
      this.root := root;
      tree := disk;
    }

    /** `root / p`, without validation: the result starts with the root's text for every
        relative argument, yet its normal form may lie outside the root; when the
        validator accepts `p`, it accepts exactly that normal form. */
    function Absolute(p: string): (r: string)
      ensures |p| > 0 && p[0] == '/' ==> r == p
      ensures !(|p| > 0 && p[0] == '/') ==> StartsWith(r, Render(root))
      ensures ValidatePath(root, p).Success? ==> ValidatePath(root, p).value == Normalize(r)
    {
      Append(Render(root), p)
    }

    /** Whether `p` names an entry; every validation failure answers false. */
    predicate Exists(p: string)
      reads this
      ensures Exists(p) ==> ValidatePath(root, p).Success? && ValidatePath(root, p).value in tree
      ensures ValidatePath(root, p).Success? && ValidatePath(root, p).value in tree ==> Exists(p)
    {
      match ValidatePath(root, p)
      case Success(a) => a in tree
      case Error(_) => false
    }

    /** The bytes of the regular file `p`; `ioFails` is the storage refusing the open or
        the read. */
    function Read(p: string, ioFails: bool): (r: Result<Bytes>)
      reads this
      ensures ValidatePath(root, p).Error? ==> r == Error(ValidatePath(root, p).kind)
      ensures r.Error? && ValidatePath(root, p).Success? ==> r.kind == IOError
      ensures r.Success? <==> !ioFails && ValidatePath(root, p).Success? &&
                              ValidatePath(root, p).value in tree && tree[ValidatePath(root, p).value].File?
      ensures r.Success? ==> r.value == tree[ValidatePath(root, p).value].data
    {
      match ValidatePath(root, p)
      case Error(k) => Error(k)
      case Success(a) => if ioFails then Error(IOError) else ReadAt(tree, a)
    }

    /** `Read` with the bytes taken as characters verbatim. */
    function ReadString(p: string, ioFails: bool): (r: Result<Text>)
      reads this
      ensures r.Success? <==> Read(p, ioFails).Success?
      ensures r.Error? ==> r.kind == Read(p, ioFails).kind
      ensures r.Success? ==> BytesOf(r.value) == Read(p, ioFails).value
    {
      match Read(p, ioFails)
      case Error(k) => Error(k)
      case Success(bytes) =>
        TextBytesRoundTrip([], bytes);
        Success(CharsOf(bytes))
    }

    /** The length of the regular file `p`. */
    function Size(p: string, ioFails: bool): (r: Result<nat>)
      reads this
      ensures ValidatePath(root, p).Error? ==> r == Error(ValidatePath(root, p).kind)
      ensures r.Error? && ValidatePath(root, p).Success? ==> r.kind == IOError
      ensures r.Success? <==> Read(p, ioFails).Success?
      ensures r.Success? ==> r.value == |Read(p, ioFails).value|
    {
      match ValidatePath(root, p)
      case Error(k) => Error(k)
      case Success(a) => if ioFails then Error(IOError) else SizeAt(tree, a)
    }

    /** The modification time of the entry `p`, in milliseconds since the epoch. */
    function Mtime(p: string, ioFails: bool): (r: Result<int>)
      reads this
      ensures ValidatePath(root, p).Error? ==> r == Error(ValidatePath(root, p).kind)
      ensures r.Error? && ValidatePath(root, p).Success? ==> r.kind == IOError
      ensures r.Success? <==> !ioFails && Exists(p)
      ensures r.Success? ==> r.value == tree[ValidatePath(root, p).value].mtime
    {
      match ValidatePath(root, p)
      case Error(k) => Error(k)
      case Success(a) => if ioFails then Error(IOError) else MtimeAt(tree, a)
    }

    /** Write `content` to `p`, creating its parent directories and truncating the file. */
    method Write(p: string, content: Bytes, now: int, fault: WriteFault) returns (r: Result<()>)
      requires Valid()
      modifies this
      ensures Valid()
      ensures ValidatePath(root, p).Error? ==> r == Error(ValidatePath(root, p).kind) && tree == old(tree)
      ensures ValidatePath(root, p).Success? ==>
                Effect(r, tree) == WriteFile(old(tree), ValidatePath(root, p).value, content, now, fault)
      ensures r.Success? && !fault.LostAtClose? ==> Read(p, false) == Success(content) && Size(p, false) == Success(|content|)
      ensures r.Success? && fault.LostAtClose? ==> Read(p, false) == Success(content[..Min(fault.kept, |content|)])
      ensures r.Success? ==> var a := ValidatePath(root, p).value;
                && (forall n :: 0 <= n < |a| ==> a[..n] in tree && tree[a[..n]].Dir?)
                && (forall q :: q in old(tree) && q != a ==> q in tree && tree[q] == old(tree)[q])
    {
      var v := ValidatePath(root, p);
      if v.Error? {
        return Error(v.kind);
      }
      var a := v.value;
      ghost var before := tree;
      ghost var effect := WriteFile(before, a, content, now, fault);
      WriteFileWellFormed(before, a, content, now, fault);
      var dirs := MakeDirs(tree, Parent(a), now);
      if dirs.Error? || fault.DirsFault? {
        assert effect == Effect(Error(IOError), before);
        return Error(IOError);
      }
      tree := dirs.value;
      if (a in tree && tree[a].Dir?) || fault.OpenFault? {
        assert effect == Effect(Error(IOError), tree);
        return Error(IOError);
      }
      tree := tree[a := File([], now)];
      if fault.ShortWrite? {
        tree := tree[a := File(content[..Min(fault.kept, |content|)], now)];
        assert effect == Effect(Error(IOError), tree);
        return Error(IOError);
      }
      if fault.LostAtClose? {
        var reached := content[..Min(fault.kept, |content|)];
        tree := tree[a := File(reached, now)];
        r := Success(());
        assert effect == Effect(r, tree);
        LostAtCloseKeepsPrefix(before, a, content, now, fault.kept);
        WriteRoundTrip(before, a, reached, now);
        assert ReadAt(tree, a) == Success(reached);
        return;
      }
      tree := tree[a := File(content, now)];
      r := Success(());
      assert effect == Effect(r, tree);
      WriteRoundTrip(before, a, content, now);
      assert ReadAt(tree, a) == Success(content);
    }

    /** Write a text as its bytes. */
    method WriteText(p: string, content: Text, now: int, fault: WriteFault) returns (r: Result<()>)
      requires Valid()
      modifies this
      ensures Valid()
      ensures ValidatePath(root, p).Error? ==> r == Error(ValidatePath(root, p).kind) && tree == old(tree)
      ensures ValidatePath(root, p).Success? ==>
                Effect(r, tree) == WriteFile(old(tree), ValidatePath(root, p).value, BytesOf(content), now, fault)
      ensures r.Success? && !fault.LostAtClose? ==> ReadString(p, false) == Success(content)
    {
      r := Write(p, BytesOf(content), now, fault);
      TextBytesRoundTrip(content, []);
    }

    /** Remove the entry `p`; a missing entry is no error. */
    method Remove(p: string, ioFails: bool) returns (r: Result<()>)
      requires Valid()
      modifies this
      ensures Valid()
      ensures ValidatePath(root, p).Error? ==> r == Error(ValidatePath(root, p).kind) && tree == old(tree)
      ensures ValidatePath(root, p).Success? ==>
                var outcome := RemoveAt(old(tree), ValidatePath(root, p).value);
                if ioFails || outcome.Error? then r == Error(IOError) && tree == old(tree)
                else r == Success(()) && tree == outcome.value
      ensures r.Success? ==> !Exists(p)
      ensures !ioFails && !old(Exists(p)) && ValidatePath(root, p).Success? ==> r == Success(()) && tree == old(tree)
    {
      var v := ValidatePath(root, p);
      if v.Error? {
        return Error(v.kind);
      }
      RemoveEffect(tree, v.value);
      var outcome := RemoveAt(tree, v.value);
      if ioFails || outcome.Error? {
        return Error(IOError);
      }
      tree := outcome.value;
      r := Success(());
    }

    /** Set the modification time of the entry `p`. */
    method SetMtime(p: string, time: int, ioFails: bool) returns (r: Result<()>)
      requires Valid()
      modifies this
      ensures Valid()
      ensures ValidatePath(root, p).Error? ==> r == Error(ValidatePath(root, p).kind) && tree == old(tree)
      ensures ValidatePath(root, p).Success? ==>
                var outcome := SetMtimeAt(old(tree), ValidatePath(root, p).value, time);
                if ioFails || outcome.Error? then r == Error(IOError) && tree == old(tree)
                else r == Success(()) && tree == outcome.value
      ensures r.Success? ==> Mtime(p, false) == Success(time)
      ensures forall q :: ReadAt(tree, q) == ReadAt(old(tree), q)
    {
      var v := ValidatePath(root, p);
      if v.Error? {
        return Error(v.kind);
      }
      SetMtimeRoundTrip(tree, v.value, time);
      var outcome := SetMtimeAt(tree, v.value, time);
      if ioFails || outcome.Error? {
        return Error(IOError);
      }
      tree := outcome.value;
      r := Success(());
    }

    /** Create the directory `p` together with its missing ancestors. */
    method Mkdir(p: string, now: int, ioFails: bool) returns (r: Result<()>)
      requires Valid()
      modifies this
      ensures Valid()
      ensures ValidatePath(root, p).Error? ==> r == Error(ValidatePath(root, p).kind) && tree == old(tree)
      ensures ValidatePath(root, p).Success? ==>
                var outcome := MakeDirs(old(tree), ValidatePath(root, p).value, now);
                if ioFails || outcome.Error? then r == Error(IOError) && tree == old(tree)
                else r == Success(()) && tree == outcome.value
      ensures r.Success? ==> var a := ValidatePath(root, p).value;
                (forall n :: 0 <= n <= |a| ==> a[..n] in tree && tree[a[..n]].Dir?) &&
                (forall q :: q in old(tree) ==> q in tree && tree[q] == old(tree)[q])
    {
      var v := ValidatePath(root, p);
      if v.Error? {
        return Error(v.kind);
      }
      MakeDirsEffect(tree, v.value, now);
      var outcome := MakeDirs(tree, v.value, now);
      if ioFails || outcome.Error? {
        return Error(IOError);
      }
      tree := outcome.value;
      r := Success(());
    }

    /** The directory a listing enumerates: the root itself for the empty argument, which
        is not validated, and the validated path otherwise. */
    function ListTarget(dir: string): Result<Path> {
      if dir == "" then Success(root) else ValidatePath(root, dir)
    }

    /** `entries` are the root-relative forms of the paths `order`, which enumerates the
        set `s` once each, in some order. */
    ghost predicate Enumerates(entries: seq<string>, order: seq<Path>, s: set<Path>) {
      && |entries| == |order|
      && (forall i :: 0 <= i < |order| ==> order[i] in s && entries[i] == RelativeTo(order[i], root))
      && (forall x :: x in s ==> x in order)
      && (forall i, j :: 0 <= i < j < |order| ==> order[i] != order[j])
    }

    /** The entries of the directory `dir` (the root when empty), relative to the root.
        `openFails` is the storage refusing to open the directory, `badEntries` the entries
        whose relative form cannot be computed; either discards everything collected. */
    method List(dir: string := "", openFails: bool := false, badEntries: set<Path> := {})
      returns (r: Result<seq<string>>, ghost order: seq<Path>)
      requires Valid()
      ensures ListTarget(dir).Error? ==> r == Error(ListTarget(dir).kind)
      ensures ListTarget(dir).Success? && ListTarget(dir).value !in tree ==> r == Success([])
      ensures ListTarget(dir).Success? && ListTarget(dir).value in tree ==>
                var d := ListTarget(dir).value;
                && (tree[d].File? ==> r == Error(NotADirectory))
                && (tree[d].Dir? ==> (r.Success? <==> !openFails && Children(tree, d) !! badEntries))
                && (tree[d].Dir? && r.Error? ==> r.kind == IOError)
                && (r.Success? ==> Enumerates(r.value, order, Children(tree, d)))
    {
      order := [];
      var target := ListTarget(dir);
      if target.Error? {
        return Error(target.kind), order;
      }
      var d := target.value;
      if d !in tree {
        return Success([]), order;
      }
      if !tree[d].Dir? {
        return Error(NotADirectory), order;
      }
      ghost var all := Children(tree, d);
      var pending := Children(tree, d);
      var entries: seq<string> := [];
      var failed := openFails;
      while pending != {} && !failed
        invariant pending <= all
        invariant failed <==> openFails || !((all - pending) !! badEntries)
        invariant !failed ==> Enumerates(entries, order, all - pending)
        decreases |pending|
      {
        var c :| c in pending;
        pending := pending - {c};
        if c in badEntries {
          failed := true;
        } else {
          entries := entries + [RelativeTo(c, root)];
          order := order + [c];
        }
      }
      if failed {
        return Error(IOError), order;
      }
      r := Success(entries);
    }

    /** The regular files anywhere under `dir` (the root when empty), relative to the root;
        directories are walked but never reported. Failures are as for `List`. */
    method ListRecursive(dir: string := "", openFails: bool := false, badEntries: set<Path> := {})
      returns (r: Result<seq<string>>, ghost order: seq<Path>)
      requires Valid()
      ensures ListTarget(dir).Error? ==> r == Error(ListTarget(dir).kind)
      ensures ListTarget(dir).Success? && ListTarget(dir).value !in tree ==> r == Success([])
      ensures ListTarget(dir).Success? && ListTarget(dir).value in tree ==>
                var d := ListTarget(dir).value;
                && (tree[d].File? ==> r == Error(NotADirectory))
                && (tree[d].Dir? ==> (r.Success? <==> !openFails && FilesUnder(tree, d) !! badEntries))
                && (tree[d].Dir? && r.Error? ==> r.kind == IOError)
                && (r.Success? ==> Enumerates(r.value, order, FilesUnder(tree, d)))
    {
      order := [];
      var target := ListTarget(dir);
      if target.Error? {
        return Error(target.kind), order;
      }
      var d := target.value;
      if d !in tree {
        return Success([]), order;
      }
      if !tree[d].Dir? {
        return Error(NotADirectory), order;
      }
      ghost var all := Descendants(tree, d);
      ghost var files := FilesUnder(tree, d);
      var pending := Descendants(tree, d);
      var entries: seq<string> := [];
      var failed := openFails;
      while pending != {} && !failed
        invariant pending <= all
        invariant failed <==> openFails || !((files - pending) !! badEntries)
        invariant !failed ==> Enumerates(entries, order, files - pending)
        decreases |pending|
      {
        var c :| c in pending;
        pending := pending - {c};
        if !tree[c].File? {
          continue;
        }
        if c in badEntries {
          failed := true;
        } else {
          entries := entries + [RelativeTo(c, root)];
          order := order + [c];
        }
      }
      if failed {
        return Error(IOError), order;
      }
      r := Success(entries);
    }
  }
}
