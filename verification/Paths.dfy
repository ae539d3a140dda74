/** The lexical half of the environment-root policy: path normalisation and overlap checks. */
module Paths {

  import opened Strings
  import opened Wrappers
  import opened Utf8
  import opened Text

  const NAME_MAX := 255
  const PATH_MAX := 4096

  datatype ErrorCode = InvalidPath | OverlappingRoots | UnknownEnvironment | UnsafeFilesystem | SystemError

  datatype PathError = PathError(code: ErrorCode, key: string)

  function Key(name: string): string {
    "environments." + name + ".data_directory"
  }

  /* Components. */

  predicate IsName(s: string) {
    s != "" && '/' !in s
  }

  predicate AreNames(parts: seq<string>) {
    forall i :: 0 <= i < |parts| ==> IsName(parts[i])
  }

  /** What follows the separator that ends the first component. */
  function AfterSlash(s: string): string
    ensures s != "" ==> |AfterSlash(s)| < |s|
  {
    var e := Find(s, '/');
    if e == |s| then "" else s[e + 1..]
  }

  /** The nonempty stretches between slashes, in order. */
  function Components(path: string): (parts: seq<string>)
    ensures AreNames(parts)
    decreases |path|
  {
    if path == "" then []
    else (if Find(path, '/') == 0 then [] else [path[..Find(path, '/')]]) + Components(AfterSlash(path))
  }

  lemma ComponentsEmpty()
    ensures Components("") == []
  {
  }

  lemma ComponentsUnfold(s: string)
    requires s != ""
    ensures Components(s) == if Find(s, '/') == 0 then Components(AfterSlash(s))
                             else [s[..Find(s, '/')]] + Components(AfterSlash(s))
  {
    hide Find, AfterSlash;
    assert Find(s, '/') == 0 ==> Components(s) == [] + Components(AfterSlash(s));
  }

  lemma ComponentsStep(before: seq<string>, s: string)
    requires s != ""
    ensures before + Components(s) ==
            (if Find(s, '/') == 0 then before else before + [s[..Find(s, '/')]]) + Components(AfterSlash(s))
  {
    hide Find, AfterSlash, Components;
    ComponentsUnfold(s);
    var tail := Components(AfterSlash(s));
    assert before + ([s[..Find(s, '/')]] + tail) == before + [s[..Find(s, '/')]] + tail;
  }

  /** The rest of path from start, which may be one past its end. */
  function From(path: string, start: nat): string {
    if start <= |path| then path[start..] else ""
  }

  /** path.find('/', start), with npos as the size. */
  method FindSlash(path: string, start: nat) returns (end: nat)
    requires start < |path|
    ensures start <= end <= |path| && Find(path[start..], '/') == end - start
    ensures path[start..end] == path[start..][..end - start]
    ensures AfterSlash(path[start..]) == From(path, end + 1)
  {
    hide Find, AfterSlash, From;
    end := start;
    while end < |path| && path[end] != '/'
      invariant start <= end <= |path| && forall k :: start <= k < end ==> path[k] != '/'
    {
      end := end + 1;
    }
    SlashFound(path, start, end);
  }

  lemma SlashFound(path: string, start: nat, end: nat)
    requires start <= end <= |path| && (forall k :: start <= k < end ==> path[k] != '/') && (end < |path| ==> path[end] == '/')
    ensures Find(path[start..], '/') == end - start
    ensures path[start..end] == path[start..][..end - start]
    ensures AfterSlash(path[start..]) == From(path, end + 1)
  {
    assert path[start..end] == path[start..][..end - start];
    FindUnique(path[start..], '/', end - start);
  }

  method SplitComponents(path: string) returns (result: seq<string>)
    ensures result == Components(path)
  {
    hide Components, Find, AfterSlash;
    ComponentsEmpty();
    result := [];
    var start := 0;
    while start < |path|
      invariant start <= |path| + 1
      invariant result + Components(From(path, start)) == Components(path)
    {
      ghost var rest := From(path, start);
      ComponentsStep(result, rest);
      var end := FindSlash(path, start);
      if end != start {
        result := result + [path[start..end]];
      }
      start := end + 1;
    }
    assert From(path, start) == "";
  }

  /** "/" before every part. */
  function Canonical(parts: seq<string>): string {
    if parts == [] then "" else "/" + parts[0] + Canonical(parts[1..])
  }

  predicate IsSlashed(s: string) {
    s == "" || s[0] == '/'
  }

  lemma {:induction false} CanonicalSnoc(parts: seq<string>, p: string)
    ensures Canonical(parts + [p]) == Canonical(parts) + "/" + p
  {
    if parts == [] {
      assert [p][1..] == [] && Canonical([p]) == "/" + p + "";
    } else {
      assert (parts + [p])[1..] == parts[1..] + [p];
      CanonicalSnoc(parts[1..], p);
    }
  }

  lemma SlashOfName(name: string, rest: string)
    requires IsName(name) && IsSlashed(rest)
    ensures Find(name + rest, '/') == |name| && (name + rest)[..|name|] == name
    ensures AfterSlash(name + rest) == if rest == "" then "" else rest[1..]
  {
    var t := name + rest;
    assert t[..|name|] == name;
    FindUnique(t, '/', |name|);
  }

  lemma ComponentsOfSlashed(name: string, rest: string)
    requires IsName(name) && IsSlashed(rest)
    ensures Components("/" + name + rest) == [name] + Components(rest)
  {
    hide Components;
    var s, t := "/" + name + rest, name + rest;
    SlashOfName(name, rest);
    assert Find(s, '/') == 0 && AfterSlash(s) == t;
    ComponentsUnfold(s);
    ComponentsUnfold(t);
    if rest != "" {
      assert Find(rest, '/') == 0 && AfterSlash(rest) == rest[1..];
      ComponentsUnfold(rest);
    } else {
      ComponentsEmpty();
    }
  }

  /** Splitting undoes joining. */
  lemma {:induction false} ComponentsOfCanonical(parts: seq<string>)
    requires AreNames(parts)
    ensures Components(Canonical(parts)) == parts
  {
    if parts != [] {
      ComponentsOfSlashed(parts[0], Canonical(parts[1..]));
      ComponentsOfCanonical(parts[1..]);
    }
  }

  /* Normalisation. */

  /** The parts without ".". */
  function Kept(parts: seq<string>): seq<string> {
    if parts == [] then [] else (if parts[0] == "." then [] else [parts[0]]) + Kept(parts[1..])
  }

  /** The component list a path stands for. */
  function Root(path: string): seq<string> {
    Kept(Components(path))
  }

  function Normal(path: string): string {
    if Root(path) == [] then "/" else Canonical(Root(path))
  }

  predicate AreShort(parts: seq<string>) {
    forall i :: 0 <= i < |parts| ==> |parts[i]| <= NAME_MAX
  }

  ghost predicate IsNormalizable(path: string) {
    && IsEncodedText(path) && path[0] == '/'
    && ".." !in Components(path)
    && AreShort(Root(path)) && |Canonical(Root(path))| < PATH_MAX
  }

  lemma {:induction false} KeptSnoc(parts: seq<string>, p: string)
    ensures Kept(parts + [p]) == if p == "." then Kept(parts) else Kept(parts) + [p]
  {
    if parts == [] {
      assert [p][1..] == [];
    } else {
      assert (parts + [p])[1..] == parts[1..] + [p];
      KeptSnoc(parts[1..], p);
    }
  }

  lemma {:induction false} KeptOnly(parts: seq<string>)
    ensures forall p :: p in Kept(parts) <==> p in parts && p != "."
    ensures AreNames(parts) ==> AreNames(Kept(parts))
    ensures "." !in parts ==> Kept(parts) == parts
  {
    if parts != [] {
      KeptOnly(parts[1..]);
    }
  }

  /** A prefix that already breaks a bound rules out the whole path. */
  lemma {:induction false} KeptGrows(parts: seq<string>, k: nat)
    requires k <= |parts|
    ensures |Canonical(Kept(parts[..k]))| <= |Canonical(Kept(parts))|
    ensures forall p :: p in Kept(parts[..k]) ==> p in Kept(parts)
    decreases |parts| - k
  {
    if k == |parts| {
      assert parts[..k] == parts;
    } else {
      KeptGrows(parts, k + 1);
      assert parts[..k + 1] == parts[..k] + [parts[k]];
      KeptSnoc(parts[..k], parts[k]);
      CanonicalSnoc(Kept(parts[..k]), parts[k]);
    }
  }

  /** Any part that Normalize stops at, at any position, makes the path unacceptable. */
  lemma RejectedPart(path: string, i: nat)
    requires i < |Components(path)|
    requires var part := Components(path)[i];
             || part == ".."
             || (part != "." && |part| > NAME_MAX)
             || (part != "." && |Canonical(Kept(Components(path)[..i]))| + 1 + |part| >= PATH_MAX)
    ensures !IsNormalizable(path)
  {
    hide Components, IsEncodedText;
    var parts := Components(path);
    var part := parts[i];
    KeptOnly(parts);
    if part != ".." {
      assert part in Kept(parts);
      assert parts[..i + 1] == parts[..i] + [part];
      KeptSnoc(parts[..i], part);
      CanonicalSnoc(Kept(parts[..i]), part);
      KeptGrows(parts, i + 1);
    }
  }

  /** What the loop has established about the first i components. */
  ghost predicate Accepted(path: string, i: nat, result: string) {
    && i <= |Components(path)|
    && ".." !in Components(path)[..i]
    && AreShort(Kept(Components(path)[..i]))
    && result == Canonical(Kept(Components(path)[..i])) && |result| < PATH_MAX
  }

  lemma AcceptNone(path: string)
    ensures Accepted(path, 0, "")
  {
  }

  lemma AcceptPart(path: string, i: nat, result: string)
    requires Accepted(path, i, result) && i < |Components(path)|
    ensures var part := Components(path)[i];
            if part == ".." then !IsNormalizable(path)
            else if part == "." then Accepted(path, i + 1, result)
            else if |part| > NAME_MAX || |result| + 1 + |part| >= PATH_MAX then !IsNormalizable(path)
            else Accepted(path, i + 1, result + "/" + part)
  {
    hide IsNormalizable, Components, Kept, Canonical;
    var parts := Components(path);
    var part := parts[i];
    if part == ".." || (part != "." && (|part| > NAME_MAX || |result| + 1 + |part| >= PATH_MAX)) {
      RejectedPart(path, i);
    } else {
      assert parts[..i + 1] == parts[..i] + [part];
      KeptSnoc(parts[..i], part);
      CanonicalSnoc(Kept(parts[..i]), part);
    }
  }

  lemma AcceptAll(path: string, result: string)
    requires IsEncodedText(path) && path[0] == '/' && Accepted(path, |Components(path)|, result)
    ensures IsNormalizable(path) && Normal(path) == if result == "" then "/" else result
  {
    assert Components(path)[..|Components(path)|] == Components(path);
    RootIsNames(path);
  }

  lemma NormalizableStarts(path: string)
    ensures IsEncodedText(path) ==> path != ""
    ensures IsNormalizable(path) ==> IsEncodedText(path) && path[0] == '/'
  {
  }

  method Normalize(path: string, key: string) returns (r: Result<string, PathError>)
    ensures r.Ok? <==> IsNormalizable(path)
    ensures r.Ok? ==> r.value == Normal(path)
    ensures r.Err? ==> r.error == PathError(InvalidPath, key)
  {
    hide *;
    NormalizableStarts(path);
    var text := ValidText(path);
    if !text || path[0] != '/' {
      return Err(PathError(InvalidPath, key));
    }
    var result := "";
    var parts := SplitComponents(path);
    AcceptNone(path);
    var i := 0;
    while i < |parts|
      invariant 0 <= i <= |parts| && Accepted(path, i, result)
    {
      var part := parts[i];
      AcceptPart(path, i, result);
      if part == ".." {
        return Err(PathError(InvalidPath, key));
      }
      if part != "." {
        if |part| > NAME_MAX {
          return Err(PathError(InvalidPath, key));
        }
        if |result| + 1 + |part| >= PATH_MAX {
          return Err(PathError(InvalidPath, key));
        }
        result := result + "/" + part;
      }
      i := i + 1;
    }
    AcceptAll(path, result);
    if result == "" {
      result := "/";
    }
    return Ok(result);
  }

  /** Cutting a plain path at its slashes leaves plain names. */
  lemma {:induction false} PlainComponents(path: string)
    requires IsPlain(path)
    ensures forall p :: p in Components(path) ==> IsPlain(p)
    decreases |path|
  {
    if path != "" {
      var e := Find(path, '/');
      if e == |path| {
        assert path[..e] == path;
      } else {
        assert path == path[..e] + ['/'] + path[e + 1..];
        PlainAroundAscii(path[..e], '/', path[e + 1..]);
      }
      assert IsPlain(AfterSlash(path));
      PlainComponents(AfterSlash(path));
    }
  }

  lemma {:induction false} PlainCanonical(parts: seq<string>)
    requires forall p :: p in parts ==> IsPlain(p)
    ensures IsPlain(Canonical(parts))
  {
    if parts != [] {
      PlainCanonical(parts[1..]);
      PlainAppend(parts[0], Canonical(parts[1..]));
      var tail := parts[0] + Canonical(parts[1..]);
      assert Canonical(parts) == "" + ['/'] + tail;
      PlainAroundAscii("", '/', tail);
    }
  }

  /** A normalised path has the same components, is normalisable, and normalises to itself. */
  lemma NormalIsFixed(path: string)
    requires IsNormalizable(path)
    ensures Root(Normal(path)) == Root(path)
    ensures IsNormalizable(Normal(path)) && Normal(Normal(path)) == Normal(path)
    ensures "." !in Components(Normal(path))
  {
    var parts := Components(path);
    var kept := Kept(parts);
    KeptOnly(parts);
    EncodedTextIsPlain(path);
    PlainComponents(path);
    PlainCanonical(kept);
    if kept == [] {
      FilesystemRootIsFixed();
    } else {
      ComponentsOfCanonical(kept);
      KeptOnly(kept);
      EncodedTextIsPlain(Normal(path));
    }
  }

  lemma FilesystemRootIsFixed()
    ensures Components("/") == [] && IsEncodedText("/")
  {
    assert AfterSlash("/") == "";
    PlainAroundAscii("", '/', "");
    assert "" + ['/'] + "" == "/";
    EncodedTextIsPlain("/");
  }

  /* Overlap. */

  /** mb::Prefix on strings. */
  predicate Prefix(a: string, b: string) {
    a == b || (|b| > |a| && b[..|a|] == a && b[|a|] == '/')
  }

  lemma PrefixSlash(a: string, b: string)
    requires Prefix(a, b)
    ensures Find(a, '/') == Find(b, '/')
  {
    var e := Find(a, '/');
    assert b[..|a|] == a;
    assert b[..e] == a[..e];
    assert e < |a| ==> b[e] == b[..|a|][e] == a[e];
    FindUnique(b, '/', e);
  }

  lemma PrefixDrop(a: string, b: string, n: nat)
    requires n <= |a| && n <= |b| && a[..n] == b[..n]
    ensures Prefix(a, b) <==> Prefix(a[n..], b[n..])
  {
    assert a == a[..n] + a[n..] && b == b[..n] + b[n..];
    if |b| > |a| {
      assert b[..|a|] == b[..n] + b[n..][..|a| - n];
      assert b[n..][..|a| - n] == b[..|a|][n..];
    }
  }

  lemma PrefixSame(head: string, a: string, b: string)
    ensures Prefix(head + a, head + b) <==> Prefix(a, b)
  {
    assert (head + a)[|head|..] == a && (head + b)[|head|..] == b;
    assert (head + a)[..|head|] == head == (head + b)[..|head|];
    PrefixDrop(head + a, head + b, |head|);
  }

  lemma PrefixSameName(x: string, u: string, y: string, v: string)
    requires IsName(x) && IsName(y) && IsSlashed(u) && IsSlashed(v) && Prefix(x + u, y + v)
    ensures x == y
  {
    SlashOfName(x, u);
    SlashOfName(y, v);
    hide Find, IsName, IsSlashed;
    PrefixSlash(x + u, y + v);
    assert (y + v)[..|x + u|] == x + u;
    assert (y + v)[..|x|] == (x + u)[..|x|];
  }

  lemma PrefixFirst(x: string, u: string, y: string, v: string)
    requires IsName(x) && IsName(y) && IsSlashed(u) && IsSlashed(v)
    ensures Prefix("/" + x + u, "/" + y + v) <==> x == y && Prefix(u, v)
  {
    assert "/" + x + u == "/" + (x + u) && "/" + y + v == "/" + (y + v);
    hide Prefix, IsName, IsSlashed;
    PrefixSame("/", x + u, y + v);
    if Prefix(x + u, y + v) { PrefixSameName(x, u, y, v); }
    PrefixSame(x, u, v);
  }

  /** The string test is exactly the prefix order on component lists. */
  lemma {:induction false} PrefixIsListPrefix(p: seq<string>, q: seq<string>)
    requires AreNames(p) && AreNames(q)
    ensures Prefix(Canonical(p), Canonical(q)) <==> p <= q
  {
    if p != [] && q != [] {
      PrefixFirst(p[0], Canonical(p[1..]), q[0], Canonical(q[1..]));
      PrefixIsListPrefix(p[1..], q[1..]);
      if p[0] == q[0] && p[1..] <= q[1..] {
        assert p == [p[0]] + p[1..] && q == [q[0]] + q[1..];
      }
      if p <= q {
        assert p[1..] == q[1..][..|p| - 1];
      }
    }
  }

  ghost predicate Overlap(p: seq<string>, q: seq<string>) {
    p <= q || q <= p
  }

  /* Resolution. */

  /** Up to the last '/'. */
  function Parent(path: string): string {
    if path == "" then "" else if path[|path| - 1] == '/' then path[..|path| - 1] else Parent(path[..|path| - 1])
  }

  /** "~/" against the home directory, an absolute path as it is, the rest against the
      configuration file's directory; None for any other use of "~". */
  function Expand(configFile: string, home: string, raw: string): Option<string> {
    if raw == "" then None
    else if raw[0] == '~' then
      if |raw| >= 2 && raw[1] == '/' then Some(Normal(home) + raw[1..]) else None
    else if raw[0] == '/' then Some(raw)
    else Some(Parent(Normal(configFile)) + "/" + raw)
  }

  type Directories = map<string, string>

  ghost predicate AreAnchors(configFile: string, home: string) {
    && IsNormalizable(configFile) && IsNormalizable(home)
    && Normal(configFile) != "/" && configFile[|configFile| - 1] != '/'
  }

  ghost predicate IsRoot(configFile: string, home: string, name: string, raw: string) {
    && IsEncodedText(name) && IsEncodedText(raw)
    && Expand(configFile, home, raw).Some?
    && IsNormalizable(Expand(configFile, home, raw).value)
    && Root(Expand(configFile, home, raw).value) != []
  }

  /** The component list of a configured root. */
  function RootOf(configFile: string, home: string, raw: string): seq<string> {
    match Expand(configFile, home, raw)
    case None => []
    case Some(path) => Root(path)
  }

  /** The roots of a map of directories, as component lists. */
  function Roots(configFile: string, home: string, dirs: Directories): map<string, seq<string>> {
    map n | n in dirs :: RootOf(configFile, home, dirs[n])
  }

  ghost predicate AreDistinctRoots(roots: map<string, seq<string>>) {
    forall a, b :: a in roots && b in roots && a != b ==> !Overlap(roots[a], roots[b])
  }

  /** The declarative condition: every path valid and bounded, and the component lists pairwise
      prefix-free. No iteration order occurs in it. */
  ghost predicate IsResolvable(configFile: string, home: string, dirs: Directories) {
    && AreAnchors(configFile, home)
    && (forall n :: n in dirs ==> IsRoot(configFile, home, n, dirs[n]))
    && AreDistinctRoots(Roots(configFile, home, dirs))
  }

  function Resolved(configFile: string, home: string, dirs: Directories): Directories {
    map n | n in dirs :: Canonical(RootOf(configFile, home, dirs[n]))
  }

  ghost predicate IsOrderOf(order: seq<string>, dirs: Directories) {
    && (forall n :: n in order <==> n in dirs)
    && forall i, j :: 0 <= i < j < |order| ==> order[i] != order[j]
  }

  lemma RootIsNames(path: string)
    ensures AreNames(Root(path))
    ensures Normal(path) == "/" <==> Root(path) == []
  {
    KeptOnly(Components(path));
    if Root(path) != [] {
      assert |Canonical(Root(path))| >= 1 + |Root(path)[0]|;
    }
  }

  lemma RootOfIsNames(configFile: string, home: string, raw: string)
    ensures AreNames(RootOf(configFile, home, raw))
  {
    if Expand(configFile, home, raw).Some? {
      RootIsNames(Expand(configFile, home, raw).value);
    }
  }

  /** One entry of the loop: expand it and normalise it. */
  method ResolveEntry(configFile: string, home: string, parent: string, homePath: string, name: string, raw: string)
    returns (r: Result<string, PathError>)
    requires AreAnchors(configFile, home) && parent == Parent(Normal(configFile)) && homePath == Normal(home)
    ensures r.Ok? <==> IsRoot(configFile, home, name, raw)
    ensures r.Ok? ==> r.value == Canonical(RootOf(configFile, home, raw))
    ensures r.Err? ==> r.error == PathError(InvalidPath, Key(name))
  {
    var nameOk := ValidText(name);
    var rawOk := ValidText(raw);
    if !nameOk || !rawOk {
      return Err(PathError(InvalidPath, Key(name)));
    }
    var expanded;
    if raw[0] == '~' {
      if !(|raw| >= 2 && raw[1] == '/') {
        return Err(PathError(InvalidPath, Key(name)));
      }
      expanded := homePath + raw[1..];
    } else if raw[0] == '/' {
      expanded := raw;
    } else {
      expanded := parent + "/" + raw;
    }
    r := Normalize(expanded, Key(name));
    RootIsNames(expanded);
    if r.Ok? && r.value == "/" {
      r := Err(PathError(InvalidPath, Key(name)));
    }
  }

  /** The inner loop over the roots accepted so far. */
  method OverlapsAccepted(canonical: string, accepted: Directories, order: seq<string>, ghost root: seq<string>,
                          ghost roots: map<string, seq<string>>) returns (found: bool)
    requires canonical == Canonical(root) && AreNames(root)
    requires forall n :: n in order ==> n in accepted && n in roots
    requires forall n :: n in order ==> AreNames(roots[n]) && accepted[n] == Canonical(roots[n])
    ensures found <==> exists n :: n in order && Overlap(root, roots[n])
  {
    var j := 0;
    while j < |order|
      invariant 0 <= j <= |order|
      invariant forall k :: 0 <= k < j ==> !Overlap(root, roots[order[k]])
    {
      var other := accepted[order[j]];
      PrefixIsListPrefix(root, roots[order[j]]);
      PrefixIsListPrefix(roots[order[j]], root);
      if Prefix(canonical, other) || Prefix(other, canonical) {
        return true;
      }
      j := j + 1;
    }
    return false;
  }

  /** What the loop has established about the first i entries; roots are their component lists. */
  ghost predicate EntriesDone(configFile: string, home: string, dirs: Directories, order: seq<string>, i: nat,
                              result: Directories, roots: map<string, seq<string>>)
  {
    && i <= |order|
    && (forall n :: n in roots <==> n in order[..i])
    && result.Keys == roots.Keys
    && (forall n :: n in roots ==> n in dirs && IsRoot(configFile, home, n, dirs[n]))
    && (forall n :: n in roots ==> roots[n] == RootOf(configFile, home, dirs[n]) && AreNames(roots[n]))
    && (forall n :: n in roots ==> result[n] == Canonical(roots[n]))
    && AreDistinctRoots(roots)
  }

  lemma NoEntries(configFile: string, home: string, dirs: Directories, order: seq<string>)
    ensures EntriesDone(configFile, home, dirs, order, 0, map[], map[])
  {
  }

  lemma EntryDone(configFile: string, home: string, dirs: Directories, order: seq<string>, i: nat,
                  result: Directories, roots: map<string, seq<string>>)
    requires IsOrderOf(order, dirs) && i < |order|
    requires EntriesDone(configFile, home, dirs, order, i, result, roots)
    requires IsRoot(configFile, home, order[i], dirs[order[i]])
    requires forall n :: n in order[..i] ==> !Overlap(RootOf(configFile, home, dirs[order[i]]), roots[n])
    ensures var root := RootOf(configFile, home, dirs[order[i]]);
            EntriesDone(configFile, home, dirs, order, i + 1, result[order[i] := Canonical(root)], roots[order[i] := root])
  {
    hide IsRoot, Canonical, Overlap, AreNames, Expand, RootOf, AreDistinctRoots;
    RootOfIsNames(configFile, home, dirs[order[i]]);
    assert order[..i + 1] == order[..i] + [order[i]];
    assert order[i] !in order[..i];
    AddDistinctRoot(roots, order[i], RootOf(configFile, home, dirs[order[i]]));
  }

  lemma AddDistinctRoot(roots: map<string, seq<string>>, name: string, root: seq<string>)
    requires AreDistinctRoots(roots) && name !in roots
    requires forall n :: n in roots ==> !Overlap(root, roots[n])
    ensures AreDistinctRoots(roots[name := root])
  {
  }

  lemma EntriesResolve(configFile: string, home: string, dirs: Directories, order: seq<string>, result: Directories,
                       roots: map<string, seq<string>>)
    requires AreAnchors(configFile, home) && IsOrderOf(order, dirs)
    requires EntriesDone(configFile, home, dirs, order, |order|, result, roots)
    ensures IsResolvable(configFile, home, dirs) && result == Resolved(configFile, home, dirs)
  {
    hide IsRoot, RootOf, Canonical, AreDistinctRoots, AreAnchors, AreNames;
    assert order[..|order|] == order;
    assert roots == Roots(configFile, home, dirs);
  }

  /** The error reported names a fault that is there. */
  ghost predicate IsExplained(configFile: string, home: string, dirs: Directories, code: ErrorCode) {
    match code
    case InvalidPath => !AreAnchors(configFile, home) || exists n :: n in dirs && !IsRoot(configFile, home, n, dirs[n])
    case OverlappingRoots =>
      exists a, b :: a in dirs && b in dirs && a != b
                     && Overlap(RootOf(configFile, home, dirs[a]), RootOf(configFile, home, dirs[b]))
    case _ => false
  }

  lemma BadEntryRefutes(configFile: string, home: string, dirs: Directories, n: string)
    requires n in dirs && !IsRoot(configFile, home, n, dirs[n])
    ensures !IsResolvable(configFile, home, dirs) && IsExplained(configFile, home, dirs, InvalidPath)
  {
  }

  lemma OverlapRefutes(configFile: string, home: string, dirs: Directories, a: string, b: string)
    requires a in dirs && b in dirs && a != b
    requires Overlap(RootOf(configFile, home, dirs[a]), RootOf(configFile, home, dirs[b]))
    ensures !IsResolvable(configFile, home, dirs) && IsExplained(configFile, home, dirs, OverlappingRoots)
  {
    hide IsRoot, Overlap, RootOf, AreAnchors;
    var roots := Roots(configFile, home, dirs);
    assert Overlap(roots[a], roots[b]);
  }

  /** The loop over the configured directories. */
  method ResolveEntries(configFile: string, home: string, parent: string, homePath: string, dirs: Directories,
                        order: seq<string>) returns (r: Result<Directories, PathError>)
    requires IsOrderOf(order, dirs)
    requires AreAnchors(configFile, home) && parent == Parent(Normal(configFile)) && homePath == Normal(home)
    ensures r.Ok? <==> IsResolvable(configFile, home, dirs)
    ensures r.Ok? ==> r.value == Resolved(configFile, home, dirs)
    ensures r.Err? ==> IsExplained(configFile, home, dirs, r.error.code)
  {
    hide IsRoot, RootOf, Roots, Resolved, Expand, Normal, Canonical, Overlap, AreAnchors, AreDistinctRoots,
         IsResolvable, Parent, IsExplained;
    var result: Directories := map[];
    ghost var roots: map<string, seq<string>> := map[];
    NoEntries(configFile, home, dirs, order);
    var i := 0;
    while i < |order|
      invariant 0 <= i <= |order| && EntriesDone(configFile, home, dirs, order, i, result, roots)
    {
      var name := order[i];
      var raw := dirs[name];
      var canonical := ResolveEntry(configFile, home, parent, homePath, name, raw);
      if canonical.Err? {
        BadEntryRefutes(configFile, home, dirs, name);
        return Err(canonical.error);
      }
      ghost var root := RootOf(configFile, home, raw);
      RootOfIsNames(configFile, home, raw);
      var found := OverlapsAccepted(canonical.value, result, order[..i], root, roots);
      if found {
        ghost var other :| other in order[..i] && Overlap(root, roots[other]);
        OverlapRefutes(configFile, home, dirs, name, other);
        return Err(PathError(OverlappingRoots, Key(name)));
      }
      EntryDone(configFile, home, dirs, order, i, result, roots);
      result := result[name := canonical.value];
      roots := roots[name := root];
      i := i + 1;
    }
    EntriesResolve(configFile, home, dirs, order, result, roots);
    return Ok(result);
  }

  /* Where a configured directory is, on component lists. */

  lemma CutJoin(a: string, b: string, e: nat)
    requires e <= |a|
    ensures var s := a + "/" + b;
            && (forall k :: 0 <= k < |a| ==> s[k] == a[k]) && s[|a|] == '/'
            && s[..e] == a[..e] && s[e + 1..] == if e == |a| then b else a[e + 1..] + "/" + b
  {
  }

  lemma SlashAround(a: string, b: string)
    ensures Find(a + "/" + b, '/') == Find(a, '/') && (a + "/" + b)[..Find(a, '/')] == a[..Find(a, '/')]
    ensures AfterSlash(a + "/" + b) == if Find(a, '/') == |a| then b else AfterSlash(a) + "/" + b
  {
    FindIs(a, '/');
    FoundIs(a, '/');
    hide Find;
    CutJoin(a, b, Find(a, '/'));
    FindAt(a + "/" + b, '/', Find(a, '/'));
  }

  lemma FoundIs(s: string, c: char)
    ensures Find(s, c) <= |s| && (Find(s, c) < |s| ==> s[Find(s, c)] == c)
  {
  }

  /** Cutting a path at any '/' cuts its component list. */
  lemma {:induction false} ComponentsAround(a: string, b: string)
    ensures Components(a + "/" + b) == Components(a) + Components(b)
    decreases |a|
  {
    hide Find, AfterSlash, Components;
    SlashAround(a, b);
    ComponentsEmpty();
    ComponentsUnfold(a + "/" + b);
    if a != "" {
      ComponentsUnfold(a);
      if Find(a, '/') < |a| {
        ComponentsAround(AfterSlash(a), b);
      } else {
        AfterLast(a);
      }
    }
  }

  lemma AfterLast(a: string)
    requires Find(a, '/') == |a|
    ensures AfterSlash(a) == ""
  {
  }

  lemma {:induction false} KeptAppend(p: seq<string>, q: seq<string>)
    ensures Kept(p + q) == Kept(p) + Kept(q)
  {
    if p == [] {
      assert p + q == q;
    } else {
      assert (p + q)[1..] == p[1..] + q;
      KeptAppend(p[1..], q);
    }
  }

  lemma RootAround(a: string, b: string)
    ensures Root(a + "/" + b) == Root(a) + Root(b)
    ensures ".." in Components(a + "/" + b) <==> ".." in Components(a) || ".." in Components(b)
  {
    ComponentsAround(a, b);
    KeptAppend(Components(a), Components(b));
  }

  lemma {:induction false} ParentOfJoin(a: string, name: string)
    requires '/' !in name
    ensures Parent(a + "/" + name) == a
    decreases |name|
  {
    var s := a + "/" + name;
    if name != "" {
      assert s[..|s| - 1] == a + "/" + name[..|name| - 1] && name[|name| - 1] in name;
      ParentOfJoin(a, name[..|name| - 1]);
    }
  }

  /** The directory of the configuration file: its components less the last. */
  lemma ParentRoot(configFile: string)
    requires IsNormalizable(configFile) && Root(configFile) != []
    ensures Parent(Normal(configFile)) == Canonical(AllButLast(Root(configFile)))
    ensures Root(Parent(Normal(configFile))) == Components(Parent(Normal(configFile))) == AllButLast(Root(configFile))
  {
    var parts := Root(configFile);
    var init, last := AllButLast(parts), parts[|parts| - 1];
    RootIsNames(configFile);
    NoDots(configFile);
    assert Normal(configFile) == Canonical(parts);
    hide Canonical, Components, Kept, Parent, Normal, Root;
    assert parts == init + [last];
    CanonicalSnoc(init, last);
    ParentOfJoin(Canonical(init), last);
    ComponentsOfCanonical(init);
    assert forall i :: 0 <= i < |init| ==> init[i] == parts[i];
    KeptOnly(init);
    RootOfComponents(Canonical(init));
  }

  lemma NoDots(path: string)
    ensures forall i :: 0 <= i < |Root(path)| ==> Root(path)[i] != "."
  {
    KeptOnly(Components(path));
    assert forall i :: 0 <= i < |Root(path)| ==> Root(path)[i] in Root(path);
  }

  lemma RootOfComponents(path: string)
    ensures Root(path) == Kept(Components(path))
  {
  }

  function AllButLast(parts: seq<string>): seq<string>
    requires parts != []
  {
    parts[..|parts| - 1]
  }

  /** The component list that a configured directory means: "~/x" is x below the home directory, an
      absolute path is itself, and any other is below the directory of the configuration file. */
  ghost function Meant(configFile: string, home: string, raw: string): seq<string>
    requires raw != "" && Root(configFile) != []
  {
    if raw[0] == '/' then Root(raw)
    else if raw[0] == '~' && |raw| >= 2 then Root(home) + Root(raw[2..])
    else AllButLast(Root(configFile)) + Root(raw)
  }

  lemma ShortParts(parts: seq<string>)
    ensures AreShort(parts) <==> forall p :: p in parts ==> |p| <= 255
  {
  }

  /** A text below a path that is in order. */
  lemma JoinedPath(base: string, x: string)
    requires IsPlain(base) && ".." !in Components(base) && AreShort(Root(base)) && IsSlashed(base)
    ensures Root(base + "/" + x) == Root(base) + Root(x)
    ensures IsNormalizable(base + "/" + x) <==>
            && IsPlain(x) && ".." !in Components(x) && (forall p :: p in Root(x) ==> |p| <= 255)
            && |Canonical(Root(base) + Root(x))| < 4096
  {
    var path := base + "/" + x;
    assert path[0] == '/';
    PlainAroundAscii(base, '/', x);
    assert base + ['/'] + x == path;
    EncodedTextIsPlain(path);
    RootAround(base, x);
    ShortParts(Root(path));
    ShortParts(Root(base));
    hide IsPlain, IsEncodedText, Components, Canonical, Root;
  }

  lemma HomeRoot(configFile: string, home: string, raw: string)
    requires IsNormalizable(home) && IsEncodedText(raw) && |raw| >= 2 && raw[0] == '~' && raw[1] == '/'
    ensures Expand(configFile, home, raw) == Some(Normal(home) + "/" + raw[2..])
    ensures RootOf(configFile, home, raw) == Root(home) + Root(raw[2..])
    ensures IsNormalizable(Normal(home) + "/" + raw[2..]) <==>
            && ".." !in Components(raw) && (forall p :: p in Root(raw) ==> |p| <= 255)
            && |Canonical(Root(home) + Root(raw[2..]))| < 4096
  {
    HomeExpands(configFile, home, raw);
    hide IsPlain, IsEncodedText, Components, Canonical, Root, Normal, IsNormalizable, Expand;
    TildeText(raw);
    NormalInOrder(home);
    JoinedPath(Normal(home), raw[2..]);
  }

  lemma HomeExpands(configFile: string, home: string, raw: string)
    requires |raw| >= 2 && raw[0] == '~' && raw[1] == '/'
    ensures Expand(configFile, home, raw) == Some(Normal(home) + "/" + raw[2..])
  {
    hide Normal;
    assert raw[1..] == "/" + raw[2..];
    assert Normal(home) + raw[1..] == Normal(home) + "/" + raw[2..];
  }

  lemma TildeText(raw: string)
    requires IsEncodedText(raw) && |raw| >= 2 && raw[0] == '~' && raw[1] == '/'
    ensures IsPlain(raw[2..])
    ensures ".." in Components(raw) <==> ".." in Components(raw[2..])
    ensures (forall p :: p in Root(raw) ==> |p| <= 255) <==> (forall p :: p in Root(raw[2..]) ==> |p| <= 255)
  {
    hide *;
    var x := raw[2..];
    assert raw == "~" + ['/'] + x && raw == "~" + "/" + x;
    EncodedTextIsPlain(raw);
    PlainAroundAscii("~", '/', x);
    TildeParts();
    RootAround("~", x);
    assert forall p :: p in Root(raw) <==> p == "~" || p in Root(x);
  }

  lemma TildeParts()
    ensures Components("~") == ["~"] && Root("~") == ["~"]
  {
    assert Find("~", '/') == 1 && "~"[..1] == "~" && AfterSlash("~") == "";
    assert ["~"][1..] == [];
  }

  lemma NormalInOrder(path: string)
    requires IsNormalizable(path)
    ensures IsPlain(Normal(path)) && ".." !in Components(Normal(path)) && AreShort(Root(Normal(path))) && IsSlashed(Normal(path))
    ensures Root(Normal(path)) == Root(path)
  {
    NormalIsFixed(path);
    EncodedTextIsPlain(Normal(path));
  }

  lemma ParentInOrder(configFile: string)
    requires IsNormalizable(configFile) && Root(configFile) != []
    ensures var base := Parent(Normal(configFile));
            && IsPlain(base) && ".." !in Components(base) && AreShort(Root(base)) && IsSlashed(base)
            && Root(base) == AllButLast(Root(configFile))
  {
    hide *;
    var parts := Root(configFile);
    NormalOfRoot(configFile);
    ParentRoot(configFile);
    NormalInOrder(configFile);
    ClimbFree(configFile);
    LastSplit(parts);
    ParentIsPlain(AllButLast(parts), parts[|parts| - 1]);
    InitOf(parts, AllButLast(parts));
  }

  lemma NormalOfRoot(path: string)
    requires Root(path) != []
    ensures Normal(path) == Canonical(Root(path))
  {
  }

  lemma LastSplit(parts: seq<string>)
    requires parts != []
    ensures parts == AllButLast(parts) + [parts[|parts| - 1]] && AllButLast(parts) <= parts
  {
  }

  lemma ParentIsPlain(init: seq<string>, last: string)
    requires IsPlain(Canonical(init + [last]))
    ensures IsPlain(Canonical(init)) && IsSlashed(Canonical(init))
  {
    CanonicalSnoc(init, last);
    hide IsPlain;
    assert Canonical(init) + "/" + last == Canonical(init) + ['/'] + last;
    PlainAroundAscii(Canonical(init), '/', last);
  }

  lemma InitOf(parts: seq<string>, init: seq<string>)
    requires init <= parts && AreShort(parts) && forall i :: 0 <= i < |parts| ==> parts[i] != ".."
    ensures AreShort(init) && ".." !in init
  {
  }

  lemma ClimbFree(path: string)
    requires IsNormalizable(path)
    ensures (forall i :: 0 <= i < |Root(path)| ==> Root(path)[i] != "..") && AreShort(Root(path))
  {
    KeptOnly(Components(path));
  }

  lemma RelativeRootOf(configFile: string, home: string, raw: string)
    requires IsNormalizable(configFile) && Root(configFile) != [] && IsEncodedText(raw) && raw[0] != '/' && raw[0] != '~'
    ensures Expand(configFile, home, raw) == Some(Parent(Normal(configFile)) + "/" + raw)
    ensures RootOf(configFile, home, raw) == AllButLast(Root(configFile)) + Root(raw)
    ensures IsNormalizable(Parent(Normal(configFile)) + "/" + raw) <==>
            && ".." !in Components(raw) && (forall p :: p in Root(raw) ==> |p| <= 255)
            && |Canonical(AllButLast(Root(configFile)) + Root(raw))| < 4096
  {
    EncodedTextIsPlain(raw);
    ParentInOrder(configFile);
    JoinedPath(Parent(Normal(configFile)), raw);
  }

  /** A text that uses "~" only as "~/", does not climb, has only short components, and means a path that
      is short and not the filesystem root. */
  ghost predicate IsUsable(configFile: string, home: string, raw: string)
    requires Root(configFile) != []
  {
    EncodedTextIsPlain(raw);
    && IsEncodedText(raw) && (raw[0] == '~' ==> |raw| >= 2 && raw[1] == '/')
    && ".." !in Components(raw) && (forall p :: p in Root(raw) ==> |p| <= 255)
    && Meant(configFile, home, raw) != [] && |Canonical(Meant(configFile, home, raw))| < 4096
  }

  lemma RootExactly(configFile: string, home: string, name: string, raw: string)
    requires AreAnchors(configFile, home)
    ensures Root(configFile) != []
    ensures IsRoot(configFile, home, name, raw) <==> IsEncodedText(name) && IsUsable(configFile, home, raw)
    ensures IsRoot(configFile, home, name, raw) ==> raw != "" && RootOf(configFile, home, raw) == Meant(configFile, home, raw)
  {
    RootIsNames(configFile);
    hide IsEncodedText, Root, Canonical, Components, Parent, Normal, IsNormalizable, Meant, Expand, IsUsable, RootOf;
    if IsEncodedText(raw) {
      EncodedIsNonempty(raw);
      ExpandedIsUsable(configFile, home, raw);
    } else {
      UsableIsText(configFile, home, raw);
    }
  }

  lemma EncodedIsNonempty(s: string)
    requires IsEncodedText(s)
    ensures s != ""
  {
  }

  lemma UsableIsText(configFile: string, home: string, raw: string)
    requires Root(configFile) != []
    ensures IsUsable(configFile, home, raw) ==> IsEncodedText(raw)
  {
  }

  lemma ExpandedIsUsable(configFile: string, home: string, raw: string)
    requires IsNormalizable(configFile) && IsNormalizable(home) && Root(configFile) != [] && IsEncodedText(raw) && raw != ""
    ensures IsUsable(configFile, home, raw) <==>
            Expand(configFile, home, raw).Some? && IsNormalizable(Expand(configFile, home, raw).value)
            && Root(Expand(configFile, home, raw).value) != []
    ensures Expand(configFile, home, raw).Some? ==> RootOf(configFile, home, raw) == Meant(configFile, home, raw)
  {
    if raw[0] == '~' {
      if |raw| >= 2 && raw[1] == '/' { HomeRoot(configFile, home, raw); }
      hide IsEncodedText, Root, Canonical, Components, Parent, Normal, IsNormalizable;
    } else if raw[0] == '/' {
      ShortParts(Root(raw));
      hide IsEncodedText, Root, Canonical, Components, Parent, Normal;
    } else {
      RelativeRootOf(configFile, home, raw);
      hide IsEncodedText, Root, Canonical, Components, Parent, Normal, IsNormalizable;
    }
  }

  /** A map resolves exactly if the anchors are absolute paths in order, the first of them a file, every
      directory is usable, and none means a directory on the way to another's. */
  lemma ResolvableExactly(configFile: string, home: string, dirs: Directories)
    ensures IsResolvable(configFile, home, dirs) <==>
            && IsNormalizable(configFile) && IsNormalizable(home) && Root(configFile) != []
            && configFile != "" && configFile[|configFile| - 1] != '/'
            && (forall n :: n in dirs ==> IsEncodedText(n) && IsUsable(configFile, home, dirs[n]))
            && (forall a, b :: a in dirs && b in dirs && a != b && dirs[a] != "" && dirs[b] != "" ==>
                  !(Meant(configFile, home, dirs[a]) <= Meant(configFile, home, dirs[b])))
    ensures IsResolvable(configFile, home, dirs) ==>
              forall n :: n in dirs ==>
                dirs[n] != "" && Roots(configFile, home, dirs)[n] == Meant(configFile, home, dirs[n])
  {
    AnchorsExactly(configFile, home);
    hide IsRoot, RootOf, Meant, IsUsable, IsNormalizable, IsEncodedText, AreAnchors, Root;
    if AreAnchors(configFile, home) {
      forall n | n in dirs
        ensures IsRoot(configFile, home, n, dirs[n]) <==> IsEncodedText(n) && IsUsable(configFile, home, dirs[n])
        ensures IsRoot(configFile, home, n, dirs[n]) ==>
                  dirs[n] != "" && RootOf(configFile, home, dirs[n]) == Meant(configFile, home, dirs[n])
      {
        RootExactly(configFile, home, n, dirs[n]);
      }
      if forall n :: n in dirs ==> IsRoot(configFile, home, n, dirs[n]) {
        DistinctExactly(dirs, Roots(configFile, home, dirs));
      }
    }
  }

  lemma AnchorsExactly(configFile: string, home: string)
    ensures AreAnchors(configFile, home) <==>
            && IsNormalizable(configFile) && IsNormalizable(home) && Root(configFile) != []
            && configFile != "" && configFile[|configFile| - 1] != '/'
  {
    NormalizableStarts(configFile);
    RootIsNames(configFile);
  }

  lemma DistinctExactly(dirs: Directories, roots: map<string, seq<string>>)
    requires roots.Keys == dirs.Keys
    ensures AreDistinctRoots(roots) <==> forall a, b :: a in dirs && b in dirs && a != b ==> !(roots[a] <= roots[b])
  {
  }

  lemma ResolvedMeans(configFile: string, home: string, dirs: Directories)
    requires IsResolvable(configFile, home, dirs)
    ensures Resolved(configFile, home, dirs).Keys == dirs.Keys && Root(configFile) != [] && "" !in dirs.Values
    ensures var value := Resolved(configFile, home, dirs);
            && (forall n :: n in dirs ==> Components(value[n]) == Meant(configFile, home, dirs[n]))
            && (forall a, b :: a in dirs && b in dirs && a != b ==> !(Components(value[a]) <= Components(value[b])))
  {
    ResolvableExactly(configFile, home, dirs);
    hide Components, IsRoot, IsResolvable, IsUsable, Meant, Canonical, Root, RootOf;
    var value := Resolved(configFile, home, dirs);
    forall n | n in dirs
      ensures dirs[n] != "" && Components(value[n]) == Meant(configFile, home, dirs[n])
    {
      RootOfIsNames(configFile, home, dirs[n]);
      ComponentsOfCanonical(RootOf(configFile, home, dirs[n]));
      assert Roots(configFile, home, dirs)[n] == RootOf(configFile, home, dirs[n]);
    }
  }

  lemma BadAnchorsRefute(configFile: string, home: string, dirs: Directories)
    ensures IsResolvable(configFile, home, dirs) ==> AreAnchors(configFile, home)
    ensures !AreAnchors(configFile, home) ==> IsExplained(configFile, home, dirs, InvalidPath)
  {
  }

  /** Where each directory is: an absolute one where it says, "~/x" below the home directory, and any other
      below the directory of the configuration file; no two of them one on the way to the other. */
  ghost predicate ArePlaced(configFile: string, home: string, dirs: Directories, resolved: Directories) {
    && resolved.Keys == dirs.Keys && Kept(Components(configFile)) != [] && "" !in dirs.Values
    && (forall n :: n in dirs ==>
          Components(resolved[n]) ==
            if dirs[n][0] == '/' then Kept(Components(dirs[n]))
            else if dirs[n][0] == '~' && |dirs[n]| >= 2 then Kept(Components(home)) + Kept(Components(dirs[n][2..]))
            else AllButLast(Kept(Components(configFile))) + Kept(Components(dirs[n])))
    && (forall a, b :: a in dirs && b in dirs && a != b ==> !(Components(resolved[a]) <= Components(resolved[b])))
  }

  /** ResolveEnvironmentPaths. std::map iterates in some fixed order; the outcome is the same for
      every order, and the output is cleared on failure. */
  method ResolveEnvironmentPaths(configFile: string, home: string, dirs: Directories, order: seq<string>)
    returns (r: Result<Directories, PathError>)
    requires IsOrderOf(order, dirs)
    ensures r.Ok? <==> IsResolvable(configFile, home, dirs)
    ensures r.Ok? ==> r.value == Resolved(configFile, home, dirs)
    ensures r.Ok? ==> ArePlaced(configFile, home, dirs, r.value)
    ensures r.Err? ==> IsExplained(configFile, home, dirs, r.error.code)
  {
    hide IsNormalizable, Components, Kept, Resolved, IsResolvable, IsExplained, Parent;
    NormalizableIsNonempty(configFile);
    BadAnchorsRefute(configFile, home, dirs);
    var config := Normalize(configFile, "config_file");
    if config.Err? { return Err(config.error); }
    var homePath := Normalize(home, "home");
    if homePath.Err? { return Err(homePath.error); }
    if config.value == "/" || configFile[|configFile| - 1] == '/' {
      return Err(PathError(InvalidPath, "config_file"));
    }
    r := ResolveEntries(configFile, home, Parent(config.value), homePath.value, dirs, order);
    if r.Ok? {
      ResolvedMeans(configFile, home, dirs);
    }
  }

  lemma NormalizableIsNonempty(path: string)
    ensures IsNormalizable(path) ==> path != ""
  {
  }

  /** Resolving a resolved map returns it unchanged, whatever valid anchors are used. */
  lemma ResolveIsIdempotent(configFile: string, home: string, dirs: Directories, configFile2: string, home2: string)
    requires IsResolvable(configFile, home, dirs) && AreAnchors(configFile2, home2)
    ensures IsResolvable(configFile2, home2, Resolved(configFile, home, dirs))
    ensures Resolved(configFile2, home2, Resolved(configFile, home, dirs)) == Resolved(configFile, home, dirs)
  {
    hide IsRoot, RootOf, AreAnchors, Canonical, Overlap;
    var once := Resolved(configFile, home, dirs);
    forall n | n in dirs
      ensures IsRoot(configFile2, home2, n, once[n])
      ensures RootOf(configFile2, home2, once[n]) == RootOf(configFile, home, dirs[n])
    {
      ResolvedEntry(configFile, home, n, dirs[n], configFile2, home2);
    }
    assert Roots(configFile2, home2, once) == Roots(configFile, home, dirs);
  }

  lemma ResolvedEntry(configFile: string, home: string, n: string, raw: string, configFile2: string, home2: string)
    requires IsRoot(configFile, home, n, raw)
    ensures IsRoot(configFile2, home2, n, Canonical(RootOf(configFile, home, raw)))
    ensures RootOf(configFile2, home2, Canonical(RootOf(configFile, home, raw))) == RootOf(configFile, home, raw)
  {
    hide IsNormalizable, Root;
    var path := Expand(configFile, home, raw).value;
    NormalIsFixed(path);
    NormalIsText(path);
    assert Canonical(Root(path)) == Normal(path);
  }

  lemma NormalIsText(path: string)
    requires IsNormalizable(path)
    ensures IsEncodedText(Normal(path)) && Normal(path)[0] == '/'
  {
    NormalIsFixed(path);
  }
}
