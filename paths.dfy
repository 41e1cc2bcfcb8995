/** Paths as the accessor sees them: strings split on '/', normalised lexically into a
    sequence of names, rendered back to strings, and checked against the root. */
module Paths {
  import opened Outcomes

  /** A normalised absolute path, one name per component: `/data/a` is ["data", "a"],
      and the top directory `/` is []. */
  type Path = seq<string>

  /** A component that survives normalisation. */
  predicate IsName(s: string) {
    s != "" && s != "." && s != ".." && '/' !in s
  }

  predicate IsNormal(a: Path) {
    forall i :: 0 <= i < |a| ==> IsName(a[i])
  }

  /** The character-prefix test of the source (`size < size || substr != root`). */
  predicate StartsWith(s: string, prefix: string) {
    |s| >= |prefix| && s[..|prefix|] == prefix
  }

  /** Component-wise containment: `a` is `base` or lies underneath it. */
  predicate Within(base: Path, a: Path) {
    |a| >= |base| && a[..|base|] == base
  }

  /** What the textual prefix check really admits: every component of `root` but the last
      is matched exactly, and the last one only as a character prefix of `a`'s component. */
  predicate SharesRoot(root: Path, a: Path) {
    root == [] ||
    (|a| >= |root| && a[..|root| - 1] == root[..|root| - 1] && StartsWith(a[|root| - 1], root[|root| - 1]))
  }

  predicate NoSeparator(pieces: seq<string>) {
    forall i :: 0 <= i < |pieces| ==> '/' !in pieces[i]
  }

  /** The pieces of `s` between separators; `Split("/a//b") == ["", "a", "", "b"]`. */
  function Split(s: string): (parts: seq<string>)
    ensures |parts| >= 1 && NoSeparator(parts)
  {
    if s == [] then [""]
    else
      var rest := Split(s[1..]);
      if s[0] == '/' then [""] + rest else [[s[0]] + rest[0]] + rest[1..]
  }

  /** The pieces joined with a separator between each two. */
  function Join(parts: seq<string>): string {
    if |parts| == 0 then ""
    else if |parts| == 1 then parts[0]
    else parts[0] + "/" + Join(parts[1..])
  }

  /** The string form of a normalised path. */
  function Render(a: Path): string {
    "/" + Join(a)
  }

  /** `base / rel` on POSIX: an absolute `rel` replaces `base`; otherwise a separator is
      inserted unless `base` already ends with one. */
  function Append(base: string, rel: string): (r: string)
    ensures |rel| > 0 && rel[0] == '/' ==> r == rel
    ensures !(|rel| > 0 && rel[0] == '/') ==> StartsWith(r, base)
  {
    if |rel| > 0 && rel[0] == '/' then rel
    else if |base| > 0 && base[|base| - 1] == '/' then base + rel
    else base + "/" + rel
  }

  /** One step of lexical normalisation: empty and `.` pieces vanish, `..` drops the last
      name (and is dropped itself at the top directory), any other piece is appended. */
  function Resolve(a: Path, piece: string): Path {
    if piece == "" || piece == "." then a
    else if piece == ".." then (if a == [] then [] else a[..|a| - 1])
    else a + [piece]
  }

  function ResolveAll(a: Path, pieces: seq<string>): Path
    decreases |pieces|
  {
    if pieces == [] then a else ResolveAll(Resolve(a, pieces[0]), pieces[1..])
  }

  /** Lexical normal form of an absolute path string. */
  function Normalize(s: string): (a: Path)
    ensures IsNormal(a)
  {
    ResolveAllNormal([], Split(s));
    ResolveAll([], Split(s))
  }

  /** The path validator: reject the empty string, join with the root, normalise lexically,
      and accept only when the result's string starts with the root's string, the
      character-prefix test of the source. The normal form keeps no trailing separator, so
      `a/` validates to the same path as `a`. */
  function ValidatePath(root: Path, rel: string): (r: Result<Path>)
    ensures rel == "" ==> r == Error(InvalidPath)
    ensures r.Error? ==> r.kind == InvalidPath || r.kind == PathEscape
    ensures r.Success? ==> IsNormal(r.value) && StartsWith(Render(r.value), Render(root))
  {
    if rel == "" then Error(InvalidPath)
    else
      var abs := Normalize(Append(Render(root), rel));
      var rootStr := Render(root);
      var absStr := Render(abs);
      if |absStr| < |rootStr| || absStr[..|rootStr|] != rootStr then Error(PathEscape)
      else Success(abs)
  }

  /** The validator with the component-wise containment check the prefix test stands for. */
  function ValidateContained(root: Path, rel: string): (r: Result<Path>)
    ensures rel == "" ==> r == Error(InvalidPath)
    ensures r.Error? ==> r.kind == InvalidPath || r.kind == PathEscape
    ensures r.Success? ==> IsNormal(r.value) && Within(root, r.value)
  {
    if rel == "" then Error(InvalidPath)
    else
      var abs := Normalize(Append(Render(root), rel));
      if Within(root, abs) then Success(abs) else Error(PathEscape)
  }

  /** Length of the longest common leading run of components. */
  function CommonPrefix(a: Path, b: Path): (k: nat)
    ensures k <= |a| && k <= |b| && a[..k] == b[..k]
    ensures k < |a| && k < |b| ==> a[k] != b[k]
  {
    if a == [] || b == [] || a[0] != b[0] then 0
    else
      var k := 1 + CommonPrefix(a[1..], b[1..]);
      assert a[..k] == [a[0]] + a[1..][..k - 1];
      assert b[..k] == [b[0]] + b[1..][..k - 1];
      k
  }

  function Ups(n: nat): (s: seq<string>)
    ensures |s| == n && forall i :: 0 <= i < n ==> s[i] == ".."
  {
    seq(n, _ => "..")
  }

  /** Lexically relative form of `a` against `base`: one `..` per component of `base` past
      the common part, then the rest of `a`; `.` when they are equal. */
  function RelativeTo(a: Path, base: Path): string {
    var k := CommonPrefix(a, base);
    var parts := Ups(|base| - k) + a[k..];
    if parts == [] then "." else Join(parts)
  }

  // ---------------------------------------------------------------------------
  // Splitting and joining

  lemma {:induction false} SplitAppend(x: string, y: string)
    ensures Split(x + "/" + y) == Split(x) + Split(y)
    decreases |x|
  {
    if x == [] {
      assert x + "/" + y == "/" + y;
      assert ("/" + y)[1..] == y;
    } else {
      assert (x + "/" + y)[1..] == x[1..] + "/" + y;
      SplitAppend(x[1..], y);
    }
  }

  lemma {:induction false} SplitNoSeparator(s: string)
    requires '/' !in s
    ensures Split(s) == [s]
    decreases |s|
  {
    if s != [] {
      assert forall c :: c in s[1..] ==> c in s;
      SplitNoSeparator(s[1..]);
      assert [s[0]] + s[1..] == s;
    }
  }

  /** Splitting undoes joining when no piece holds a separator. */
  lemma {:induction false} SplitJoin(parts: seq<string>)
    requires |parts| >= 1
    requires forall i :: 0 <= i < |parts| ==> '/' !in parts[i]
    ensures Split(Join(parts)) == parts
    decreases |parts|
  {
    SplitNoSeparator(parts[0]);
    if |parts| > 1 {
      SplitAppend(parts[0], Join(parts[1..]));
      SplitJoin(parts[1..]);
      assert [parts[0]] + parts[1..] == parts;
    }
  }

  lemma {:induction false} JoinStartsWithFirst(parts: seq<string>)
    requires |parts| >= 1
    ensures StartsWith(Join(parts), parts[0])
  {
    if |parts| > 1 {
      assert Join(parts)[..|parts[0]|] == parts[0];
    }
  }

  /** The last character of a rendered non-top path is not a separator. */
  lemma {:induction false} JoinEndsWithName(parts: seq<string>)
    requires |parts| >= 1 && IsNormal(parts)
    ensures |Join(parts)| > 0 && Join(parts)[|Join(parts)| - 1] != '/'
    decreases |parts|
  {
    assert IsName(parts[|parts| - 1]);
    if |parts| == 1 {
      assert parts[0][|parts[0]| - 1] in parts[0];
    } else {
      assert IsNormal(parts[1..]) by {
        forall i | 0 <= i < |parts| - 1 ensures IsName(parts[1..][i]) { assert parts[1..][i] == parts[i + 1]; }
      }
      JoinEndsWithName(parts[1..]);
    }
  }

  // ---------------------------------------------------------------------------
  // Normalisation

  lemma {:induction false} ResolveAllNormal(a: Path, pieces: seq<string>)
    requires IsNormal(a) && NoSeparator(pieces)
    ensures IsNormal(ResolveAll(a, pieces))
    decreases |pieces|
  {
    if pieces != [] {
      var b := Resolve(a, pieces[0]);
      assert IsNormal(b) by {
        if pieces[0] == ".." && a != [] {
          forall i | 0 <= i < |b| ensures IsName(b[i]) { assert b[i] == a[i]; }
        }
      }
      assert NoSeparator(pieces[1..]) by {
        forall i | 0 <= i < |pieces| - 1 ensures '/' !in pieces[1..][i] { assert pieces[1..][i] == pieces[i + 1]; }
      }
      ResolveAllNormal(b, pieces[1..]);
    }
  }

  lemma {:induction false} ResolveAllAppend(a: Path, x: seq<string>, y: seq<string>)
    ensures ResolveAll(a, x + y) == ResolveAll(ResolveAll(a, x), y)
    decreases |x|
  {
    if x == [] {
      assert x + y == y;
    } else {
      assert (x + y)[1..] == x[1..] + y;
      ResolveAllAppend(Resolve(a, x[0]), x[1..], y);
    }
  }

  /** Names are appended unchanged. */
  lemma {:induction false} ResolveAllNames(a: Path, names: seq<string>)
    requires IsNormal(names)
    ensures ResolveAll(a, names) == a + names
    decreases |names|
  {
    if names != [] {
      assert IsName(names[0]);
      assert IsNormal(names[1..]) by {
        forall i | 0 <= i < |names| - 1 ensures IsName(names[1..][i]) { assert names[1..][i] == names[i + 1]; }
      }
      ResolveAllNames(a + [names[0]], names[1..]);
      assert a + [names[0]] + names[1..] == a + names;
    }
  }

  /** Each `..` drops one trailing component. */
  lemma {:induction false} ResolveAllUps(a: Path, n: nat)
    requires n <= |a|
    ensures ResolveAll(a, Ups(n)) == a[..|a| - n]
    decreases n
  {
    if n > 0 {
      assert Ups(n)[1..] == Ups(n - 1);
      ResolveAllUps(a[..|a| - 1], n - 1);
      assert a[..|a| - 1][..|a| - 1 - (n - 1)] == a[..|a| - n];
    }
  }

  /** Splitting a rendered path gives an empty piece for the leading separator, then the names. */
  lemma SplitRender(a: Path)
    requires IsNormal(a)
    ensures Split(Render(a)) == [""] + (if a == [] then [""] else a)
  {
    assert Render(a) == "" + "/" + Join(a);
    SplitAppend("", Join(a));
    if a != [] {
      assert NoSeparator(a) by {
        forall i | 0 <= i < |a| ensures '/' !in a[i] { assert IsName(a[i]); }
      }
      SplitJoin(a);
    }
  }

  /** The root followed by a relative string. */
  lemma AppendToRoot(root: Path, rel: string)
    requires IsNormal(root)
    requires !(|rel| > 0 && rel[0] == '/')
    ensures root == [] ==> Append(Render(root), rel) == "" + "/" + rel
    ensures root != [] ==> Append(Render(root), rel) == Render(root) + "/" + rel
  {
    if root != [] {
      JoinEndsWithName(root);
      assert Render(root)[|Render(root)| - 1] == Join(root)[|Join(root)| - 1];
    }
  }

  /** Joining a relative string onto the root and normalising is resolving the string's
      pieces starting from the root. */
  lemma NormalizeJoined(root: Path, rel: string)
    requires IsNormal(root)
    requires !(|rel| > 0 && rel[0] == '/')
    ensures Normalize(Append(Render(root), rel)) == ResolveAll(root, Split(rel))
  {
    AppendToRoot(root, rel);
    var pieces := Split(rel);
    if root == [] {
      SplitAppend("", rel);
      assert Split(Append(Render(root), rel)) == [""] + pieces;
      ResolveAllAppend([], [""], pieces);
    } else {
      SplitAppend(Render(root), rel);
      SplitRender(root);
      assert Split(Append(Render(root), rel)) == ([""] + root) + pieces;
      ResolveAllAppend([], [""] + root, pieces);
      assert ResolveAll([], [""] + root) == ResolveAll([], root);
      ResolveAllNames([], root);
      assert [] + root == root;
    }
  }

  // ---------------------------------------------------------------------------
  // What the textual prefix check means

  lemma CharsAgree(s: string, t: string, i: int)
    ensures StartsWith(t, s) && 0 <= i < |s| ==> s[i] == t[i]
  {
    if StartsWith(t, s) && 0 <= i < |s| {
      assert t[..|s|][i] == t[i];
    }
  }

  lemma NoSeparatorAt(x: string, i: int)
    ensures '/' !in x && 0 <= i < |x| ==> x[i] != '/'
  {
    if 0 <= i < |x| {
      assert x[i] in x;
    }
  }

  /** A name followed by an empty or separator-led tail is a prefix of another such string
      only when it is a character prefix of the other name; with a non-empty tail the two
      names must be equal and the tails in the prefix relation. */
  lemma NameHead(x: string, u: string, y: string, v: string)
    requires '/' !in x && '/' !in y
    requires u == [] || u[0] == '/'
    requires v == [] || v[0] == '/'
    requires StartsWith(y + v, x + u)
    ensures |x| <= |y| && x == y[..|x|]
    ensures u != [] ==> x == y && StartsWith(v, u)
  {
    var s, t := x + u, y + v;
    CharsAgree(s, t, |y|);
    NoSeparatorAt(x, |y|);
    if |x| > |y| {
      assert false;
    }
    assert x == s[..|x|] == t[..|x|] == y[..|x|];
    if u != [] {
      CharsAgree(s, t, |x|);
      NoSeparatorAt(y, |x|);
      if |x| < |y| {
        assert false;
      }
      assert v[..|u|] == t[..|s|][|y|..];
    }
  }

  /** What follows the first name of a joined path. */
  function JoinTail(parts: seq<string>): string
    requires |parts| >= 1
  {
    if |parts| == 1 then "" else "/" + Join(parts[1..])
  }

  /** Dropping the first component keeps a path normal. */
  lemma TailNormal(a: Path)
    requires IsNormal(a) && |a| >= 1
    ensures IsNormal(a[1..])
  {
    forall i | 0 <= i < |a| - 1 ensures IsName(a[1..][i]) { assert a[1..][i] == a[i + 1]; }
  }

  /** A joined path is its first piece followed by a tail that is empty or starts with a
      separator and then joins the remaining pieces. */
  lemma JoinFirst(parts: seq<string>)
    requires |parts| >= 1
    ensures Join(parts) == parts[0] + JoinTail(parts)
    ensures JoinTail(parts) == [] || JoinTail(parts)[0] == '/'
    ensures |parts| > 1 ==> JoinTail(parts) != [] && JoinTail(parts)[1..] == Join(parts[1..])
  {
  }

  /** Peeling the first name off both sides of a textual prefix of joined paths. */
  lemma JoinPrefixStep(x: Path, a: Path)
    requires IsNormal(x) && IsNormal(a) && |x| >= 1
    requires StartsWith(Join(a), Join(x))
    ensures |a| >= 1 && |x[0]| <= |a[0]| && x[0] == a[0][..|x[0]|]
    ensures |x| > 1 ==> |a| > 1 && x[0] == a[0] && StartsWith(Join(a[1..]), Join(x[1..]))
  {
    assert IsName(x[0]);
    JoinFirst(x);
    assert |Join(x)| > 0;
    assert a != [];
    assert IsName(a[0]);
    JoinFirst(a);
    var u, v := JoinTail(x), JoinTail(a);
    NameHead(x[0], u, a[0], v);
    if |x| > 1 {
      assert u != [] && x[0] == a[0] && StartsWith(v, u);
      assert v != [];
      assert StartsWith(v[1..], u[1..]);
    }
  }

  lemma {:induction false} JoinPrefixSound(x: Path, a: Path)
    requires IsNormal(x) && IsNormal(a) && |x| >= 1
    requires StartsWith(Join(a), Join(x))
    ensures SharesRoot(x, a)
    decreases |x|
  {
    JoinPrefixStep(x, a);
    if |x| > 1 {
      TailNormal(x);
      TailNormal(a);
      JoinPrefixSound(x[1..], a[1..]);
      assert a[..|x| - 1] == [a[0]] + a[1..][..|x| - 2];
      assert x[..|x| - 1] == [x[0]] + x[1..][..|x| - 2];
    }
  }

  lemma {:induction false} JoinPrefixComplete(x: Path, a: Path)
    requires |x| >= 1 && SharesRoot(x, a)
    ensures StartsWith(Join(a), Join(x))
    decreases |x|
  {
    if |x| == 1 {
      JoinStartsWithFirst(a);
      assert Join(a)[..|a[0]|] == a[0];
      assert a[0][..|x[0]|] == x[0];
      assert Join(a)[..|x[0]|] == x[0];
    } else {
      assert a[0] == a[..|x| - 1][0] == x[..|x| - 1][0] == x[0];
      assert a[1..][..|x| - 2] == a[1..|x| - 1] == x[1..|x| - 1] == x[1..][..|x| - 2];
      assert a[1..][|x| - 2] == a[|x| - 1];
      JoinPrefixComplete(x[1..], a[1..]);
      assert Join(a) == a[0] + "/" + Join(a[1..]);
      assert Join(x) == x[0] + "/" + Join(x[1..]);
      assert Join(a)[..|Join(x)|] == a[0] + "/" + Join(a[1..])[..|Join(x[1..])|];
    }
  }

  /** The textual prefix check on normalised paths holds exactly when `a` shares the root
      in the sense of SharesRoot: all of the root's components but the last match, and the
      last is only required to be a character prefix. */
  lemma PrefixCheckMeaning(root: Path, a: Path)
    requires IsNormal(root) && IsNormal(a)
    ensures StartsWith(Render(a), Render(root)) <==> SharesRoot(root, a)
  {
    if root == [] {
      assert Render(a)[..1] == "/";
    } else {
      assert StartsWith(Render(a), Render(root)) <==> StartsWith(Join(a), Join(root)) by {
        assert Render(a)[1..] == Join(a);
        if StartsWith(Join(a), Join(root)) {
          assert Render(a)[..|Render(root)|] == "/" + Join(a)[..|Join(root)|];
        }
        if StartsWith(Render(a), Render(root)) {
          assert Join(a)[..|Join(root)|] == Render(a)[..|Render(root)|][1..];
        }
      }
      if StartsWith(Join(a), Join(root)) {
        JoinPrefixSound(root, a);
      }
      if SharesRoot(root, a) {
        JoinPrefixComplete(root, a);
      }
    }
  }

  lemma WithinSharesRoot(root: Path, a: Path)
    requires Within(root, a)
    ensures SharesRoot(root, a)
  {
    if root != [] {
      assert a[..|root| - 1] == a[..|root|][..|root| - 1];
      assert a[|root| - 1] == a[..|root|][|root| - 1];
      assert StartsWith(a[|root| - 1], root[|root| - 1]);
    }
  }

  // ---------------------------------------------------------------------------
  // The validator

  /** For a relative argument the validator resolves its pieces from the root and accepts
      the target exactly when it shares the root. */
  lemma ValidateRelative(root: Path, rel: string)
    requires IsNormal(root)
    requires rel != "" && rel[0] != '/'
    ensures var target := ResolveAll(root, Split(rel));
            ValidatePath(root, rel) == if SharesRoot(root, target) then Success(target) else Error(PathEscape)
  {
    NormalizeJoined(root, rel);
    var target := ResolveAll(root, Split(rel));
    ResolveAllNormal(root, Split(rel));
    PrefixCheckMeaning(root, target);
  }

  /** Whatever the validator accepts matches every root component but the last exactly;
      so a path that normalises above the root, or into any directory not beside the root's
      last component, is rejected. */
  lemma AcceptedSharesRoot(root: Path, rel: string)
    requires IsNormal(root)
    requires ValidatePath(root, rel).Success?
    ensures SharesRoot(root, ValidatePath(root, rel).value)
    ensures root != [] ==> |ValidatePath(root, rel).value| >= |root|
  {
    PrefixCheckMeaning(root, ValidatePath(root, rel).value);
  }

  /** A relative argument that normalises strictly above the root is rejected. */
  lemma AboveRootRejected(root: Path, rel: string)
    requires IsNormal(root)
    requires rel != "" && rel[0] != '/'
    requires |ResolveAll(root, Split(rel))| < |root|
    ensures ValidatePath(root, rel) == Error(PathEscape)
  {
    ValidateRelative(root, rel);
  }

  /** Running depth of a relative path's pieces never drops below where it started. */
  predicate NeverAbove(depth: nat, pieces: seq<string>)
    decreases |pieces|
  {
    pieces == [] ||
    (if pieces[0] == ".." then depth > 0 && NeverAbove(depth - 1, pieces[1..])
     else NeverAbove(if pieces[0] == "" || pieces[0] == "." then depth else depth + 1, pieces[1..]))
  }

  lemma {:induction false} StaysWithin(root: Path, below: Path, pieces: seq<string>)
    requires NeverAbove(|below|, pieces)
    ensures Within(root, ResolveAll(root + below, pieces))
    decreases |pieces|
  {
    if pieces == [] {
      assert (root + below)[..|root|] == root;
    } else if pieces[0] == "" || pieces[0] == "." {
      StaysWithin(root, below, pieces[1..]);
    } else if pieces[0] == ".." {
      assert (root + below)[..|root + below| - 1] == root + below[..|below| - 1];
      StaysWithin(root, below[..|below| - 1], pieces[1..]);
    } else {
      assert root + below + [pieces[0]] == root + (below + [pieces[0]]);
      StaysWithin(root, below + [pieces[0]], pieces[1..]);
    }
  }

  /** No false alarms: a relative path whose `..` pieces never climb above the root is
      accepted, and resolves to a path inside the root. */
  lemma InRootAccepted(root: Path, rel: string)
    requires IsNormal(root)
    requires rel != "" && rel[0] != '/'
    requires NeverAbove(0, Split(rel))
    ensures ValidatePath(root, rel).Success?
    ensures Within(root, ValidatePath(root, rel).value)
    ensures ValidateContained(root, rel) == ValidatePath(root, rel)
  {
    StaysWithin(root, [], Split(rel));
    assert root + [] == root;
    WithinSharesRoot(root, ResolveAll(root, Split(rel)));
    ValidateRelative(root, rel);
    NormalizeJoined(root, rel);
  }

  /** The corrected validator accepts a subset of what the written one accepts, with the
      same result; the written one accepts more only for siblings whose last component
      merely begins with the root's last component. */
  lemma ContainedNarrowsPrefixCheck(root: Path, rel: string)
    requires IsNormal(root)
    ensures ValidateContained(root, rel).Success? ==> ValidatePath(root, rel) == ValidateContained(root, rel)
    ensures ValidatePath(root, rel).Success? && ValidateContained(root, rel).Error? ==>
              root != [] && SharesRoot(root, ValidatePath(root, rel).value) &&
              ValidatePath(root, rel).value[|root| - 1] != root[|root| - 1]
  {
    if rel != "" {
      var abs := Normalize(Append(Render(root), rel));
      PrefixCheckMeaning(root, abs);
      if Within(root, abs) {
        WithinSharesRoot(root, abs);
      } else if SharesRoot(root, abs) {
      }
    }
  }

  // ---------------------------------------------------------------------------
  // Relative forms of listed entries

  lemma JoinNotAbsolute(parts: seq<string>)
    requires |parts| >= 1 && (IsName(parts[0]) || parts[0] == "..")
    ensures Join(parts) != "" && Join(parts)[0] != '/'
  {
    JoinStartsWithFirst(parts);
    assert Join(parts)[0] == parts[0][0];
    assert parts[0][0] in parts[0];
  }

  /** Against a root it shares, a path diverges from the root at most at the root's last component. */
  lemma CommonPrefixWithRoot(root: Path, a: Path)
    requires SharesRoot(root, a)
    ensures |root| - 1 <= CommonPrefix(a, root)
  {
    var k := CommonPrefix(a, root);
    if root != [] && k < |root| - 1 {
      assert false;
    }
  }

  /** The pieces of a relative form: `..` or names, none holding a separator. */
  lemma RelativePieces(a: Path, n: nat, k: nat)
    requires IsNormal(a) && k <= |a|
    ensures var parts := Ups(n) + a[k..];
            NoSeparator(parts) && forall i :: 0 <= i < |parts| ==> parts[i] == ".." || IsName(parts[i])
  {
    var parts := Ups(n) + a[k..];
    forall i | 0 <= i < |parts| ensures '/' !in parts[i] && (parts[i] == ".." || IsName(parts[i])) {
      if i < n {
        assert parts[i] == "..";
        assert forall j :: 0 <= j < |".."| ==> ".."[j] == '.';
      } else {
        assert parts[i] == a[k + i - n];
      }
    }
  }

  /** Climbing from the root to the common part and descending again reaches the entry. */
  lemma ResolveRelativeParts(root: Path, a: Path, k: nat)
    requires IsNormal(a) && k <= |root| && k <= |a| && a[..k] == root[..k]
    ensures ResolveAll(root, Ups(|root| - k) + a[k..]) == a
  {
    var n := |root| - k;
    var rest := a[k..];
    ResolveAllAppend(root, Ups(n), rest);
    ResolveAllUps(root, n);
    assert |root| - n == k;
    assert ResolveAll(root, Ups(n)) == root[..k];
    assert IsNormal(rest) by {
      forall i | 0 <= i < |rest| ensures IsName(rest[i]) { assert rest[i] == a[k + i]; }
    }
    ResolveAllNames(root[..k], rest);
    assert a[..k] + rest == a;
  }

  /** The root-relative form is a non-empty relative string whose pieces lead from the root
      back to the entry. */
  lemma RelativeResolves(root: Path, a: Path)
    requires IsNormal(root) && IsNormal(a) && SharesRoot(root, a)
    ensures var rel := RelativeTo(a, root);
            rel != "" && rel[0] != '/' && ResolveAll(root, Split(rel)) == a
  {
    var k := CommonPrefix(a, root);
    CommonPrefixWithRoot(root, a);
    var parts := Ups(|root| - k) + a[k..];
    if parts == [] {
      assert a == a[..k] == root[..k] == root;
      SplitNoSeparator(".");
    } else {
      RelativePieces(a, |root| - k, k);
      JoinNotAbsolute(parts);
      SplitJoin(parts);
      ResolveRelativeParts(root, a, k);
    }
  }

  /** A listed entry's root-relative form validates back to the entry itself. */
  lemma RelativeRoundTrip(root: Path, a: Path)
    requires IsNormal(root) && IsNormal(a) && SharesRoot(root, a)
    ensures ValidatePath(root, RelativeTo(a, root)) == Success(a)
  {
    RelativeResolves(root, a);
    ValidateRelative(root, RelativeTo(a, root));
  }

  // ---------------------------------------------------------------------------
  // Concrete cases

  lemma SplitThree(x: string, y: string, z: string)
    requires '/' !in x && '/' !in y && '/' !in z
    ensures Split(x + "/" + y + "/" + z) == [x, y, z]
  {
    assert x + "/" + y + "/" + z == x + "/" + (y + "/" + z);
    SplitAppend(x, y + "/" + z);
    SplitAppend(y, z);
    SplitNoSeparator(x);
    SplitNoSeparator(y);
    SplitNoSeparator(z);
  }

  /** With root `/sandbox`, `../etc/passwd` is rejected as an escape. */
  lemma TraversalRejected(root: Path, rel: string)
    requires root == ["sandbox"] && rel == "../etc/passwd"
    ensures ValidatePath(root, rel) == Error(PathEscape)
  {
    assert rel == ".." + "/" + "etc" + "/" + "passwd";
    SplitThree("..", "etc", "passwd");
    assert IsNormal(root);
    ValidateRelative(root, rel);
    assert ResolveAll(root, ["..", "etc", "passwd"]) == ["etc", "passwd"];
  }

  /** The weakness of the textual check: with root `/data`, `../data-other/x` resolves to
      the sibling directory `/data-other`, outside the root, and is accepted because
      "/data-other/x" begins with the characters "/data". The component-wise check
      rejects it. */
  lemma SiblingPassesPrefixCheck(root: Path, rel: string)
    requires root == ["data"] && rel == "../data-other/x"
    ensures ValidatePath(root, rel) == Success(["data-other", "x"])
    ensures !Within(root, ValidatePath(root, rel).value)
    ensures ValidateContained(root, rel) == Error(PathEscape)
  {
    SiblingTarget(root, rel);
    var target: Path := ["data-other", "x"];
    assert IsNormal(root) && IsNormal(target);
    assert "data-other"[..4] == "data";
    assert SharesRoot(root, target);
    PrefixCheckMeaning(root, target);
    assert target[..1] != root;
  }

  /** `../data-other/x` joined to `/data` normalises to `/data-other/x`. */
  lemma SiblingTarget(root: Path, rel: string)
    requires root == ["data"] && rel == "../data-other/x"
    ensures Normalize(Append(Render(root), rel)) == ["data-other", "x"]
  {
    assert rel == ".." + "/" + "data-other" + "/" + "x";
    SplitThree("..", "data-other", "x");
    assert IsNormal(root);
    NormalizeJoined(root, rel);
    assert ResolveAll(root, ["..", "data-other", "x"]) == ["data-other", "x"];
  }

  /** `root / p` is a plain join: with root `/data`, `../etc` gives the string
      "/data/../etc", which starts with the root's text but names `/etc`, which the
      validator refuses. */
  lemma AbsoluteEscapes(root: Path, rel: string)
    requires root == ["data"] && rel == "../etc"
    ensures Append(Render(root), rel) == Render(root) + "/" + rel
    ensures StartsWith(Append(Render(root), rel), Render(root))
    ensures Normalize(Append(Render(root), rel)) == ["etc"]
    ensures ValidatePath(root, rel) == Error(PathEscape)
  {
    assert rel == ".." + "/" + "etc";
    SplitAppend("..", "etc");
    SplitNoSeparator("..");
    SplitNoSeparator("etc");
    assert IsNormal(root);
    AppendToRoot(root, rel);
    NormalizeJoined(root, rel);
    assert ResolveAll(root, ["..", "etc"]) == ["etc"];
    ValidateRelative(root, rel);
  }
}
