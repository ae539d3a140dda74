/** AuditEnvironmentPaths and PrepareEnvironmentRoot: the descriptor walks over the directory
    graph, comparing identities and remainders, and creating one selected root. */
module EnvironmentRoots {

  import opened Strings
  import opened Wrappers
  import opened Paths
  import opened FileSystem
  import opened Growth

  /* Remainders are strings in the program and component lists in the specification. */

  /** The components joined by '/'. */
  function Relative(parts: seq<string>): string {
    if parts == [] then "" else Canonical(parts)[1..]
  }

  predicate RemaindersOverlap(a: string, b: string) {
    a == "" || b == "" || Prefix(a, b) || Prefix(b, a)
  }

  lemma CanonicalTail(parts: seq<string>)
    requires parts != []
    ensures Canonical(parts) != "" && Canonical(parts)[1..] == parts[0] + Canonical(parts[1..])
    ensures IsSlashed(Canonical(parts[1..]))
  {
    DropFirst(parts[0], Canonical(parts[1..]));
  }

  lemma CanonicalEmpty(parts: seq<string>)
    ensures Canonical(parts) == "" <==> parts == []
  {
    if parts != [] {
      assert |Canonical(parts)| >= 1;
    }
  }

  lemma DropFirst(x: string, rest: string)
    ensures ("/" + x + rest)[1..] == x + rest
  {
  }

  lemma RelativeParts(parts: seq<string>)
    requires AreNames(parts)
    ensures Relative(parts) == "" <==> parts == []
    ensures parts != [] ==> AfterSlash(Relative(parts)) == Relative(parts[1..])
  {
    hide Find, AfterSlash, Canonical;
    if parts != [] {
      CanonicalTail(parts);
      CanonicalEmpty(parts[1..]);
      SlashOfName(parts[0], Canonical(parts[1..]));
    }
  }

  lemma RemaindersAreLists(p: seq<string>, q: seq<string>)
    requires AreNames(p) && AreNames(q)
    ensures RemaindersOverlap(Relative(p), Relative(q)) <==> Overlap(p, q)
  {
    RelativeParts(p);
    RelativeParts(q);
    if p != [] && q != [] {
      PrefixIsListPrefix(p, q);
      PrefixIsListPrefix(q, p);
      PrefixDrop(Canonical(p), Canonical(q), 1);
      PrefixDrop(Canonical(q), Canonical(p), 1);
    }
  }

  /** A trace as the program records it. */
  datatype Seen = Seen(node: Inode, remainder: string)

  function Spelled(t: seq<Visit>): (s: seq<Seen>)
    ensures |s| == |t|
  {
    if t == [] then [] else [Seen(t[0].node, Relative(t[0].rest))] + Spelled(t[1..])
  }

  lemma {:induction false} SpelledAt(t: seq<Visit>)
    ensures forall k :: 0 <= k < |t| ==> Spelled(t)[k] == Seen(t[k].node, Relative(t[k].rest))
  {
    if t != [] {
      SpelledAt(t[1..]);
      assert forall k :: 0 < k < |t| ==> Spelled(t)[k] == Spelled(t[1..])[k - 1];
    }
  }

  /** A resolved path: canonical, and not the filesystem root. */
  predicate IsRootPath(path: string) {
    Components(path) != [] && path == Canonical(Components(path))
  }

  /* What a creating walk does, one directory at a time. */

  function MakePath(fs: Fs, at: Inode, parts: seq<string>): (r: (Fs, Result<Inode, ErrorCode>))
    requires IsFs(fs) && at in fs.nodes
    decreases |parts|
  {
    if !IsSafe(fs.nodes[at], fs.uid, parts == []) then (fs, Err(UnsafeFilesystem))
    else if parts == [] then (fs, Ok(at))
    else
      match OpenAt(fs, at, parts[0])
      case Found(n) => MakePath(fs, n, parts[1..])
      case Refused => (fs, Err(UnsafeFilesystem))
      case Missing =>
        if !fs.nodes[at].writable then (fs, Err(SystemError))
        else
          CreatedIsFs(fs, at, parts[0]);
          MakePath(Created(fs, at, parts[0]), fs.next, parts[1..])
  }

  /** Everything a creating walk does after an accepted audit: it only makes missing directories
      of its own path, keeps the audit accepted, and succeeds exactly when the last existing
      directory on the way can be extended. */
  lemma {:induction false} MakePathOutcome(fs0: Fs, fs: Fs, roots: map<string, seq<string>>, name: string, k: nat)
    requires IsAudited(fs, roots) && name in roots && IsGrownFrom(fs0, fs, {roots[name]})
    requires k < |Trace(fs, fs.root, roots[name])|
    ensures var p, v := roots[name], Trace(fs, fs.root, roots[name])[k];
            && v.node in fs.nodes
            && var (fs', r) := MakePath(fs, v.node, v.rest);
            && IsAudited(fs', roots) && IsGrownFrom(fs0, fs', {p})
            && (r.Ok? <==> CanFinish(fs, p))
            && (r.Ok? ==> Last(Trace(fs', fs'.root, p)) == Visit(r.value, [])
                          && r.value in fs'.nodes && IsSafe(fs'.nodes[r.value], fs'.uid, true))
            && (r.Err? ==> r.error == SystemError)
    decreases |roots[name]| - k
  {
    hide Trace, IsSafe, IsGrownFrom, Created, IsPassable, CanFinish, AreSeparate;
    var p := roots[name];
    var t := Trace(fs, fs.root, p);
    var v := t[k];
    TraceSuffix(fs, fs.root, p, k);
    PassableSuffix(fs, fs.root, p, k);
    PassableStep(fs, v.node, v.rest);
    if v.rest == [] {
      TraceEnd(fs, v.node);
      assert t == t[..k] + t[k..];
      FinishedCanFinish(fs, p);
    } else {
      NextPlace(fs, fs.root, p, k);
      match OpenAt(fs, v.node, p[k])
      case Found(n) =>
        assert t[k + 1].rest == v.rest[1..];
        MakePathOutcome(fs0, fs, roots, name, k + 1);
      case Missing =>
        assert k == |t| - 1;
        UnfinishedCanFinish(fs, p);
        if fs.nodes[v.node].writable {
          MissingEntry(fs, v.node, p[k]);
          assert IsOnWalk(fs, p, v.node, p[k]);
          AuditAfterCreate(fs, roots, v.node, p[k]);
          GrownAfterCreate(fs0, fs, {p}, v.node, p[k]);
          MadePlace(fs, p, v.node, p[k]);
          MakePathOutcome(fs0, Created(fs, v.node, p[k]), roots, name, k + 1);
        }
    }
  }

  /** In a directory that has just been made nothing can be in the way of the rest of the path. */
  lemma {:induction false} NewPathSucceeds(fs: Fs, at: Inode, parts: seq<string>)
    requires IsFs(fs) && at in fs.nodes && fs.nodes[at] == PrivateDirectory(fs.uid)
    ensures MakePath(fs, at, parts).1.Ok?
    decreases |parts|
  {
    assert IsSafe(fs.nodes[at], fs.uid, parts == []);
    if parts != [] {
      CreatedIsFs(fs, at, parts[0]);
      hide IsSafe, IsFs;
      NewPathSucceeds(Created(fs, at, parts[0]), fs.next, parts[1..]);
    }
  }

  /** A creating walk that fails has made nothing. */
  lemma {:induction false} FailedPathMakesNothing(fs: Fs, at: Inode, parts: seq<string>)
    requires IsFs(fs) && at in fs.nodes
    ensures MakePath(fs, at, parts).1.Err? ==> MakePath(fs, at, parts).0 == fs
    decreases |parts|
  {
    if IsSafe(fs.nodes[at], fs.uid, parts == []) && parts != [] {
      match OpenAt(fs, at, parts[0]) {
        case Found(n) => FailedPathMakesNothing(fs, n, parts[1..]);
        case Refused =>
        case Missing =>
          if fs.nodes[at].writable {
            CreatedIsFs(fs, at, parts[0]);
            NewPathSucceeds(Created(fs, at, parts[0]), fs.next, parts[1..]);
          }
      }
    }
  }

  /** A creating walk, on any graph: it makes no exception for what is there already, and ends either at the
      directory where an inspecting walk ends or in a new one. */
  lemma {:induction false} MakePathExactly(fs: Fs, at: Inode, parts: seq<string>)
    requires IsFs(fs) && at in fs.nodes
    ensures Last(Trace(fs, at, parts)).node in fs.nodes
    ensures var (made, r) := MakePath(fs, at, parts);
            var end := Last(Trace(fs, at, parts));
            && (r.Ok? <==> IsPassable(fs, at, parts) && (end.rest == [] || fs.nodes[end.node].writable))
            && (r.Err? ==> made == fs && r.error == if IsPassable(fs, at, parts) then SystemError else UnsafeFilesystem)
            && (r.Ok? && end.rest == [] ==> made == fs && r.value == end.node)
            && (r.Ok? && end.rest != [] ==> made.next == fs.next + |end.rest| && r.value == made.next - 1)
    decreases |parts|
  {
    hide IsSafe, Created, IsFs;
    FailedPathMakesNothing(fs, at, parts);
    if parts != [] {
      match OpenAt(fs, at, parts[0]) {
        case Found(n) =>
          MakePathExactly(fs, n, parts[1..]);
          LastOfRest(fs, at, parts);
        case Refused =>
        case Missing =>
          if fs.nodes[at].writable {
            MadeDirectory(fs, at, parts[0]);
            NewPathSucceeds(Created(fs, at, parts[0]), fs.next, parts[1..]);
            NewPathEnd(Created(fs, at, parts[0]), fs.next, parts[1..]);
          }
      }
    }
  }

  lemma MadeDirectory(fs: Fs, at: Inode, name: string)
    requires IsFs(fs) && at in fs.nodes
    ensures var made := Created(fs, at, name);
            IsFs(made) && made.next == fs.next + 1 && fs.next in made.nodes && made.nodes[fs.next] == PrivateDirectory(made.uid)
  {
    CreatedIsFs(fs, at, name);
  }

  lemma LastOfRest(fs: Fs, at: Inode, parts: seq<string>)
    requires IsFs(fs) && at in fs.nodes && parts != [] && OpenAt(fs, at, parts[0]).Found?
    ensures Last(Trace(fs, at, parts)) == Last(Trace(fs, OpenAt(fs, at, parts[0]).inode, parts[1..]))
  {
  }

  lemma {:induction false} NewPathEnd(fs: Fs, at: Inode, parts: seq<string>)
    requires IsFs(fs) && at in fs.nodes && fs.nodes[at] == PrivateDirectory(fs.uid) && at == fs.next - 1
    ensures var (made, r) := MakePath(fs, at, parts);
            r.Ok? && made.next == fs.next + |parts| && r.value == made.next - 1
    decreases |parts|
  {
    assert IsSafe(fs.nodes[at], fs.uid, parts == []);
    if parts != [] {
      MadeDirectory(fs, at, parts[0]);
      hide IsSafe, IsFs, Created;
      NewPathEnd(Created(fs, at, parts[0]), fs.next, parts[1..]);
    }
  }

  lemma PassableStep(fs: Fs, at: Inode, parts: seq<string>)
    requires IsFs(fs) && at in fs.nodes && IsPassable(fs, at, parts)
    ensures IsSafe(fs.nodes[at], fs.uid, parts == [])
    ensures parts != [] ==> !OpenAt(fs, at, parts[0]).Refused?
  {
  }

  lemma TraceEnd(fs: Fs, at: Inode)
    requires IsFs(fs) && at in fs.nodes
    ensures Trace(fs, at, []) == [Visit(at, [])]
  {
  }

  lemma FinishedCanFinish(fs: Fs, p: seq<string>)
    requires IsFs(fs) && IsComplete(fs, p)
    ensures CanFinish(fs, p)
  {
  }

  lemma UnfinishedCanFinish(fs: Fs, p: seq<string>)
    requires IsFs(fs) && !IsComplete(fs, p) && Last(Trace(fs, fs.root, p)).node in fs.nodes
    ensures CanFinish(fs, p) <==> fs.nodes[Last(Trace(fs, fs.root, p)).node].writable
  {
  }

  lemma MissingEntry(fs: Fs, at: Inode, name: string)
    requires IsFs(fs) && at in fs.nodes && OpenAt(fs, at, name).Missing?
    ensures name !in fs.nodes[at].entries && fs.nodes[at].searchable
  {
  }

  /** The walk that was stopped by a missing entry goes one step further once it is made. */
  lemma MadePlace(fs: Fs, p: seq<string>, at: Inode, name: string)
    requires IsFs(fs) && at in fs.nodes && OpenAt(fs, at, name).Missing?
    requires var end := Last(Trace(fs, fs.root, p)); end.node == at && end.rest != [] && end.rest[0] == name
    requires fs.nodes[at].writable
    ensures var t := Trace(fs, fs.root, p);
            && IsFs(Created(fs, at, name))
            && Created(fs, at, name).root == fs.root
            && Trace(Created(fs, at, name), fs.root, p) == t + [Visit(fs.next, Last(t).rest[1..])]
            && CanFinish(Created(fs, at, name), p)
  {
    var t, k := Trace(fs, fs.root, p), |Trace(fs, fs.root, p)| - 1;
    MissingEntry(fs, at, name);
    TraceAfterCreate(fs, at, name, fs.root, p);
    TraceSuffix(fs, fs.root, p, k);
    CreatedRoot(fs, at, name);
    OpenAfterCreate(fs, at, name, at, name);
    var fs' := Created(fs, at, name);
    var t' := Trace(fs', fs.root, p);
    assert t'[k] == t[k];
    NextPlace(fs', fs.root, p, k);
    WalkAfterCreate(fs, at, name, p);
  }

  /* Preparing several roots. */

  ghost function PrepareAll(fs: Fs, roots: map<string, seq<string>>, order: seq<string>): Fs
    requires IsFs(fs) && forall n :: n in order ==> n in roots
    requires IsAudited(fs, roots)
    decreases |order|
  {
    if order == [] then fs
    else
      GrownFromSelf(fs, {roots[order[0]]});
      MakePathOutcome(fs, fs, roots, order[0], 0);
      PrepareAll(MakePath(fs, fs.root, roots[order[0]]).0, roots, order[1..])
  }

  /** A creating walk is a sequence of single creations. */
  lemma {:induction false} MakePathIsReplay(fs: Fs, at: Inode, parts: seq<string>) returns (steps: seq<Making>)
    requires IsFs(fs) && at in fs.nodes
    ensures CanReplay(fs, steps) && Replay(fs, steps) == MakePath(fs, at, parts).0
    decreases |parts|
  {
    hide Created;
    steps := [];
    if IsSafe(fs.nodes[at], fs.uid, parts == []) && parts != [] {
      match OpenAt(fs, at, parts[0])
      case Found(n) =>
        steps := MakePathIsReplay(fs, n, parts[1..]);
      case Missing =>
        if fs.nodes[at].writable {
          CreatedIsFs(fs, at, parts[0]);
          CreatedNext(fs, at, parts[0]);
          var rest := MakePathIsReplay(Created(fs, at, parts[0]), fs.next, parts[1..]);
          steps := [Making(at, parts[0])] + rest;
          assert steps[1..] == rest;
        }
      case Refused =>
    }
  }

  lemma CreatedNext(fs: Fs, at: Inode, name: string)
    requires at in fs.nodes
    ensures fs.next in Created(fs, at, name).nodes
  {
  }

  /** Roots can be prepared in any order and any number of times: the audit stays accepted with
      the same roots, exactly those that could be prepared at the start are prepared, and a root
      already prepared keeps its directory. */
  lemma {:induction false} AnyOrder(fs: Fs, roots: map<string, seq<string>>, order: seq<string>)
    requires IsAudited(fs, roots) && forall n :: n in order ==> n in roots
    ensures var fs' := PrepareAll(fs, roots, order);
            && IsAudited(fs', roots)
            && (forall n :: n in roots && CanFinish(fs, roots[n]) ==> CanFinish(fs', roots[n]))
            && (forall n :: n in order && CanFinish(fs, roots[n]) ==> IsComplete(fs', roots[n]))
            && (forall n :: n in roots && IsComplete(fs, roots[n]) ==>
                  Trace(fs', fs'.root, roots[n]) == Trace(fs, fs.root, roots[n]))
    decreases |order|
  {
    hide Trace, MakePath, IsAudited, CanFinish, IsComplete;
    if order != [] {
      var name := order[0];
      AuditedIsFs(fs, roots);
      GrownFromSelf(fs, {roots[name]});
      MakePathOutcome(fs, fs, roots, name, 0);
      var (fs1, r) := MakePath(fs, fs.root, roots[name]);
      var steps := MakePathIsReplay(fs, fs.root, roots[name]);
      AuditedIsFs(fs1, roots);
      AnyOrder(fs1, roots, order[1..]);
      var fs' := PrepareAll(fs1, roots, order[1..]);
      AuditedIsFs(fs', roots);
      forall n | n in roots
        ensures CanFinish(fs, roots[n]) ==> CanFinish(fs1, roots[n])
        ensures IsComplete(fs, roots[n]) ==> IsComplete(fs1, roots[n])
        ensures IsComplete(fs, roots[n]) ==> Trace(fs1, fs1.root, roots[n]) == Trace(fs, fs.root, roots[n])
      {
        WalkAfterReplay(fs, steps, roots[n]);
        if IsComplete(fs, roots[n]) {
          CompleteIsFrozen(fs, steps, roots[n]);
          SameWalkSameEnd(fs, fs1, roots[n]);
        }
      }
      if CanFinish(fs, roots[name]) {
        EndIsComplete(fs1, roots[name], r.value);
      }
      forall n | n in roots && IsComplete(fs1, roots[n])
        ensures IsComplete(fs', roots[n])
      {
        SameWalkSameEnd(fs1, fs', roots[n]);
      }
    }
  }

  lemma AuditedIsFs(fs: Fs, roots: map<string, seq<string>>)
    requires IsAudited(fs, roots)
    ensures IsFs(fs) && forall n :: n in roots ==> |Trace(fs, fs.root, roots[n])| > 0
    ensures forall n :: n in roots ==> Trace(fs, fs.root, roots[n])[0] == Visit(fs.root, roots[n])
  {
  }

  lemma SameWalkSameEnd(fs: Fs, fs': Fs, p: seq<string>)
    requires IsFs(fs) && IsFs(fs') && Trace(fs, fs.root, p) == Trace(fs', fs'.root, p)
    ensures IsComplete(fs, p) ==> IsComplete(fs', p)
  {
  }

  lemma EndIsComplete(fs: Fs, p: seq<string>, n: Inode)
    requires IsFs(fs) && Last(Trace(fs, fs.root, p)) == Visit(n, [])
    ensures IsComplete(fs, p)
  {
  }

  /* The walks as the program runs them, on a disk it updates in place. */

  /** The exact condition under which a walk that creates nothing succeeds. */
  predicate CanWalk(fs: Fs, parts: seq<string>)
    requires IsFs(fs)
  {
    fs.nodes[fs.root].readable && IsPassable(fs, fs.root, parts)
  }

  lemma SpelledStep(t: seq<Visit>, seen: seq<Seen>)
    requires t != []
    ensures seen + Spelled(t) == seen + [Seen(t[0].node, Relative(t[0].rest))] + Spelled(t[1..])
  {
  }

  lemma TraceStep(fs: Fs, at: Inode, parts: seq<string>)
    requires IsFs(fs) && at in fs.nodes
    ensures parts != [] && OpenAt(fs, at, parts[0]).Found? ==>
              Trace(fs, at, parts)[1..] == Trace(fs, OpenAt(fs, at, parts[0]).inode, parts[1..])
    ensures parts == [] || !OpenAt(fs, at, parts[0]).Found? ==> Trace(fs, at, parts)[1..] == []
  {
  }

  /** The error that the audit of resolvable roots reports names a fault that is there. */
  ghost predicate IsAuditFault(fs: Fs, roots: map<string, seq<string>>, code: ErrorCode)
    requires IsFs(fs)
  {
    match code
    case SystemError => !fs.nodes[fs.root].readable
    case UnsafeFilesystem => exists n :: n in roots && !IsPassable(fs, fs.root, roots[n])
    case OverlappingRoots =>
      exists a, b :: a in roots && b in roots && a != b
                     && !AreSeparate(Trace(fs, fs.root, roots[a]), Trace(fs, fs.root, roots[b]))
    case _ => false
  }

  datatype Prepared = Prepared(path: string, directory: Inode)

  class Disk {
    var fs: Fs

    constructor (fs: Fs)
      ensures this.fs == fs
    {
      this.fs := fs;
    }

    /** Walk with create == false: inspects every existing directory on the path. */
    method Inspect(path: string, key: string) returns (r: Result<seq<Seen>, PathError>)
      requires IsFs(fs) && IsRootPath(path)
      ensures r.Ok? <==> CanWalk(fs, Components(path))
      ensures r.Ok? ==> r.value == Spelled(Trace(fs, fs.root, Components(path)))
      ensures r.Err? ==> r.error == PathError(if fs.nodes[fs.root].readable then UnsafeFilesystem else SystemError, key)
    {
      hide Components, Canonical, IsSafe, OpenAt, Relative, AfterSlash;
      var current := fs.root;
      if !fs.nodes[current].readable {
        return Err(PathError(SystemError, key));
      }
      RelativeRoot(path);
      var parts := SplitComponents(path);
      var remainder := path[1..];
      var trace: seq<Seen> := [];
      var i := 0;
      while true
        invariant 0 <= i <= |parts| && current in fs.nodes
        invariant remainder == Relative(parts[i..])
        invariant trace + Spelled(Trace(fs, current, parts[i..])) == Spelled(Trace(fs, fs.root, parts))
        invariant IsPassable(fs, current, parts[i..]) <==> IsPassable(fs, fs.root, parts)
        decreases |parts| - i
      {
        if !IsSafe(fs.nodes[current], fs.uid, i == |parts|) {
          return Err(PathError(UnsafeFilesystem, key));
        }
        SpelledStep(Trace(fs, current, parts[i..]), trace);
        TraceStep(fs, current, parts[i..]);
        trace := trace + [Seen(current, remainder)];
        if i == |parts| {
          return Ok(trace);
        }
        match OpenAt(fs, current, parts[i]) {
          case Missing => return Ok(trace);
          case Refused => return Err(PathError(UnsafeFilesystem, key));
          case Found(next) =>
            RelativeParts(parts[i..]);
            assert parts[i..][1..] == parts[i + 1..];
            current := next;
            remainder := AfterSlash(remainder);
            i := i + 1;
        }
      }
    }

    /** Walk with create == true: makes missing directories on the way. */
    method Create(path: string, key: string) returns (r: Result<Inode, PathError>)
      requires IsFs(fs) && IsRootPath(path)
      modifies this
      ensures var (made, final) := if old(fs).nodes[old(fs).root].readable
                                   then MakePath(old(fs), old(fs).root, Components(path))
                                   else (old(fs), Err(SystemError));
              fs == made && r == if final.Ok? then Ok(final.value) else Err(PathError(final.error, key))
    {
      hide Components, Canonical, IsSafe, OpenAt, Created;
      var current := fs.root;
      if !fs.nodes[current].readable {
        return Err(PathError(SystemError, key));
      }
      var parts := SplitComponents(path);
      var i := 0;
      while true
        invariant 0 <= i <= |parts| && IsFs(fs) && current in fs.nodes
        invariant MakePath(fs, current, parts[i..]) == MakePath(old(fs), old(fs).root, parts)
        decreases |parts| - i
      {
        if !IsSafe(fs.nodes[current], fs.uid, i == |parts|) {
          return Err(PathError(UnsafeFilesystem, key));
        }
        if i == |parts| {
          return Ok(current);
        }
        assert parts[i..][1..] == parts[i + 1..];
        var next := OpenAt(fs, current, parts[i]);
        if next.Missing? {
          if !fs.nodes[current].writable {
            return Err(PathError(SystemError, key));
          }
          MissingEntry(fs, current, parts[i]);
          OpenAfterCreate(fs, current, parts[i], current, parts[i]);
          fs := Created(fs, current, parts[i]);
          next := OpenAt(fs, current, parts[i]);
        }
        if !next.Found? {
          return Err(PathError(UnsafeFilesystem, key));
        }
        current := next.inode;
        i := i + 1;
      }
    }

    /** The audit's comparison of one walk with those before it. */
    method OverlapsEarlier(name: string, trace: seq<Seen>, traces: seq<seq<Seen>>, order: seq<string>,
                           ghost roots: map<string, seq<string>>) returns (found: bool)
      requires IsInspected(fs, roots, order, |traces|, traces) && |traces| < |order| && order[|traces|] == name
      requires name in roots && trace == Spelled(Trace(fs, fs.root, roots[name]))
      requires forall k :: 0 <= k < |traces| ==> order[k] != name
      requires forall v :: v in Trace(fs, fs.root, roots[name]) ==> AreNames(v.rest)
      ensures found ==> !IsAudited(fs, roots) && IsAuditFault(fs, roots, OverlappingRoots)
      ensures !found ==> forall k :: 0 <= k < |traces| ==>
                AreSeparate(Trace(fs, fs.root, roots[name]), Trace(fs, fs.root, roots[order[k]]))
    {
      hide IsInspected, IsAudited, Trace, AreSeparate, Spelled, AreNames, IsAuditFault, Meet;
      InspectedNames(fs, roots, order, traces);
      var j := 0;
      while j < |traces|
        invariant 0 <= j <= |traces|
        invariant forall k :: 0 <= k < j ==>
          AreSeparate(Trace(fs, fs.root, roots[name]), Trace(fs, fs.root, roots[order[k]]))
      {
        InspectedTrace(fs, roots, order, |traces|, traces, j);
        MeetingIsOverlap(Trace(fs, fs.root, roots[name]), Trace(fs, fs.root, roots[order[j]]));
        found := Collides(trace, traces[j]);
        if found {
          CollisionRefutes(fs, roots, name, order[j]);
          return;
        }
        j := j + 1;
      }
      found := false;
    }

    /** AuditEnvironmentPaths, for any iteration order of the map. */
    method Audit(configFile: string, home: string, dirs: Directories, order: seq<string>)
      returns (r: Result<Directories, PathError>)
      requires IsFs(fs) && IsOrderOf(order, dirs)
      ensures r.Ok? <==> IsResolvable(configFile, home, dirs) && IsAudited(fs, Roots(configFile, home, dirs))
      ensures r.Ok? ==> r.value == Resolved(configFile, home, dirs)
      ensures r.Err? ==> if IsResolvable(configFile, home, dirs)
                then IsAuditFault(fs, Roots(configFile, home, dirs), r.error.code)
                else IsExplained(configFile, home, dirs, r.error.code)
    {
      hide ArePlaced, IsResolvable, IsAudited, CanWalk, Trace, AreSeparate, Roots, Resolved, IsRootPath, IsInspected, AreNames,
           Spelled, IsFs, IsAuditFault, IsExplained;
      var resolution := ResolveEnvironmentPaths(configFile, home, dirs, order);
      if resolution.Err? {
        return Err(resolution.error);
      }
      var result := resolution.value;
      ghost var roots := Roots(configFile, home, dirs);
      ResolvedNames(configFile, home, dirs);
      var traces: seq<seq<Seen>> := [];
      NothingInspected(fs, roots, order);
      var i := 0;
      while i < |order|
        invariant 0 <= i == |traces| <= |order| && IsInspected(fs, roots, order, i, traces)
      {
        var name := order[i];
        ResolvedIsPath(configFile, home, dirs, name);
        var trace := Inspect(result[name], Key(name));
        if trace.Err? {
          UnwalkableRefutes(fs, roots, name);
          return Err(trace.error);
        }
        InspectedRests(fs, roots[name]);
        var found := OverlapsEarlier(name, trace.value, traces, order, roots);
        if found {
          return Err(PathError(OverlappingRoots, Key(name)));
        }
        InspectedNext(fs, roots, order, i, traces, trace.value);
        traces := traces + [trace.value];
        i := i + 1;
      }
      InspectedAll(fs, roots, order, traces);
      return Ok(result);
    }

    /** PrepareEnvironmentRoot. */
    method Prepare(configFile: string, home: string, dirs: Directories, order: seq<string>, selected: string)
      returns (r: Result<Prepared, PathError>)
      requires IsFs(fs) && IsOrderOf(order, dirs)
      modifies this
      ensures IsFs(fs)
      ensures var roots := Roots(configFile, home, dirs);
              var accepted := IsResolvable(configFile, home, dirs) && IsAudited(old(fs), roots) && selected in dirs;
              && (r.Ok? <==> accepted && CanFinish(old(fs), roots[selected]))
              && (r.Err? ==> fs == old(fs))
              && (r.Err? && accepted ==> r.error == PathError(SystemError, Key(selected)))
              && (r.Err? && IsResolvable(configFile, home, dirs) && IsAudited(old(fs), roots) && selected !in dirs ==>
                    r.error == PathError(UnknownEnvironment, Key(selected)))
              && (accepted ==>
                    && fs == MakePath(old(fs), old(fs).root, roots[selected]).0
                    && IsAudited(fs, roots) && IsGrownFrom(old(fs), fs, {roots[selected]}))
              && (r.Ok? ==>
                    && r.value.path == Resolved(configFile, home, dirs)[selected]
                    && Last(Trace(fs, fs.root, roots[selected])) == Visit(r.value.directory, [])
                    && r.value.directory in fs.nodes && IsSafe(fs.nodes[r.value.directory], fs.uid, true))
    {
      hide IsResolvable, IsAudited, IsPassable, Trace, AreSeparate, IsGrownFrom, CanFinish, MakePath, IsSafe, IsRootPath,
           IsFs, Roots, Resolved, IsAuditFault, IsExplained, IsOrderOf;
      var resolved := Audit(configFile, home, dirs, order);
      if resolved.Err? {
        return Err(resolved.error);
      }
      ghost var roots := Roots(configFile, home, dirs);
      ResolvedNames(configFile, home, dirs);
      if selected !in resolved.value {
        return Err(PathError(UnknownEnvironment, Key(selected)));
      }
      ResolvedIsPath(configFile, home, dirs, selected);
      PrepareOutcome(fs, roots, selected);
      var directory := Create(resolved.value[selected], Key(selected));
      if directory.Err? {
        assert MakePath(old(fs), old(fs).root, roots[selected]).1 == Err(SystemError);
        FailedPathMakesNothing(old(fs), old(fs).root, roots[selected]);
        return Err(directory.error);
      }
      return Ok(Prepared(resolved.value[selected], directory.value));
    }
  }

  lemma PrepareOutcome(fs: Fs, roots: map<string, seq<string>>, name: string)
    requires IsAudited(fs, roots) && name in roots
    ensures IsFs(fs) && fs.root in fs.nodes && fs.nodes[fs.root].readable
    ensures var (fs', r) := MakePath(fs, fs.root, roots[name]);
            && IsFs(fs') && IsAudited(fs', roots) && IsGrownFrom(fs, fs', {roots[name]})
            && (r.Ok? <==> CanFinish(fs, roots[name]))
            && (r.Ok? ==> Last(Trace(fs', fs'.root, roots[name])) == Visit(r.value, [])
                          && r.value in fs'.nodes && IsSafe(fs'.nodes[r.value], fs'.uid, true))
            && (r.Err? ==> r.error == SystemError)
  {
    hide IsPassable, AreSeparate, CanFinish, MakePath, IsSafe;
    GrownFromSelf(fs, {roots[name]});
    MakePathOutcome(fs, fs, roots, name, 0);
    TraceStart(fs, roots[name]);
  }

  lemma RelativeRoot(path: string)
    requires IsRootPath(path)
    ensures path != "" && path[1..] == Relative(Components(path))
  {
  }

  lemma TraceStart(fs: Fs, p: seq<string>)
    requires IsFs(fs)
    ensures |Trace(fs, fs.root, p)| > 0 && Trace(fs, fs.root, p)[0] == Visit(fs.root, p)
  {
  }

  /** The resolved spelling of a root splits back into its component list. */
  lemma ResolvedIsPath(configFile: string, home: string, dirs: Directories, n: string)
    requires IsResolvable(configFile, home, dirs) && n in dirs
    ensures n in Resolved(configFile, home, dirs) && n in Roots(configFile, home, dirs)
    ensures IsRootPath(Resolved(configFile, home, dirs)[n])
    ensures Components(Resolved(configFile, home, dirs)[n]) == Roots(configFile, home, dirs)[n]
    ensures AreNames(Roots(configFile, home, dirs)[n])
  {
    hide RootOf, IsRoot, Overlap, AreAnchors, AreDistinctRoots;
    RootOfIsNames(configFile, home, dirs[n]);
    RootIsNonempty(configFile, home, n, dirs[n]);
    ComponentsOfCanonical(RootOf(configFile, home, dirs[n]));
  }

  lemma ResolvedNames(configFile: string, home: string, dirs: Directories)
    ensures Roots(configFile, home, dirs).Keys == Resolved(configFile, home, dirs).Keys == dirs.Keys
  {
  }

  lemma RootIsNonempty(configFile: string, home: string, n: string, raw: string)
    requires IsRoot(configFile, home, n, raw)
    ensures RootOf(configFile, home, raw) != []
  {
  }

  lemma {:induction false} TraceRestsAreNames(fs: Fs, at: Inode, parts: seq<string>)
    requires IsFs(fs) && at in fs.nodes && AreNames(parts)
    ensures forall v :: v in Trace(fs, at, parts) ==> AreNames(v.rest)
    decreases |parts|
  {
    if parts != [] && OpenAt(fs, at, parts[0]).Found? {
      TraceRestsAreNames(fs, OpenAt(fs, at, parts[0]).inode, parts[1..]);
    }
  }

  /** The comparison that the audit makes on what two walks recorded. */
  predicate Meet(trace: seq<Seen>, other: seq<Seen>) {
    exists i, j :: 0 <= i < |trace| && 0 <= j < |other|
                   && trace[i].node == other[j].node && RemaindersOverlap(trace[i].remainder, other[j].remainder)
  }

  /** The two inner loops of the audit. */
  method Collides(trace: seq<Seen>, other: seq<Seen>) returns (found: bool)
    ensures found <==> Meet(trace, other)
  {
    hide RemaindersOverlap;
    for i := 0 to |trace|
      invariant forall k, l :: 0 <= k < i && 0 <= l < |other| && trace[k].node == other[l].node ==>
        !RemaindersOverlap(trace[k].remainder, other[l].remainder)
    {
      for j := 0 to |other|
        invariant forall l :: 0 <= l < j && trace[i].node == other[l].node ==>
          !RemaindersOverlap(trace[i].remainder, other[l].remainder)
      {
        if trace[i].node == other[j].node && RemaindersOverlap(trace[i].remainder, other[j].remainder) {
          return true;
        }
      }
    }
    return false;
  }

  /** On strings the comparison is the one on component lists. */
  lemma MeetingIsOverlap(t: seq<Visit>, u: seq<Visit>)
    requires forall v :: v in t + u ==> AreNames(v.rest)
    ensures Meet(Spelled(t), Spelled(u)) <==> !AreSeparate(t, u)
  {
    hide RemaindersOverlap, Relative, AreNames, Overlap, Spelled;
    SpelledAt(t);
    SpelledAt(u);
    forall i, j | 0 <= i < |t| && 0 <= j < |u|
      ensures RemaindersOverlap(Relative(t[i].rest), Relative(u[j].rest)) <==> Overlap(t[i].rest, u[j].rest)
    {
      assert t[i] in t + u && u[j] in t + u;
      RemaindersAreLists(t[i].rest, u[j].rest);
    }
    if !AreSeparate(t, u) {
      var v, w :| v in t && w in u && v.node == w.node && Overlap(v.rest, w.rest);
      var i :| 0 <= i < |t| && t[i] == v;
      var j :| 0 <= j < |u| && u[j] == w;
      assert Spelled(t)[i].node == Spelled(u)[j].node;
    }
  }

  /** What the audit has established about the first i names of its order. */
  ghost predicate IsInspected(fs: Fs, roots: map<string, seq<string>>, order: seq<string>, i: nat, traces: seq<seq<Seen>>) {
    && IsFs(fs) && i == |traces| <= |order|
    && (forall k :: 0 <= k < i ==> order[k] in roots && AreNames(roots[order[k]]) && CanWalk(fs, roots[order[k]])
                                   && traces[k] == Spelled(Trace(fs, fs.root, roots[order[k]])))
    && (forall k, l :: 0 <= k < l < i ==>
          AreSeparate(Trace(fs, fs.root, roots[order[l]]), Trace(fs, fs.root, roots[order[k]])))
  }

  lemma NothingInspected(fs: Fs, roots: map<string, seq<string>>, order: seq<string>)
    requires IsFs(fs)
    ensures IsInspected(fs, roots, order, 0, [])
  {
  }

  lemma InspectedRests(fs: Fs, p: seq<string>)
    requires IsFs(fs) && AreNames(p)
    ensures forall v :: v in Trace(fs, fs.root, p) ==> AreNames(v.rest)
  {
    TraceRestsAreNames(fs, fs.root, p);
  }

  lemma InspectedNames(fs: Fs, roots: map<string, seq<string>>, order: seq<string>, traces: seq<seq<Seen>>)
    requires IsInspected(fs, roots, order, |traces|, traces)
    ensures IsFs(fs) && forall k :: 0 <= k < |traces| ==> order[k] in roots
  {
  }

  lemma InspectedTrace(fs: Fs, roots: map<string, seq<string>>, order: seq<string>, i: nat, traces: seq<seq<Seen>>, j: nat)
    requires IsInspected(fs, roots, order, i, traces) && j < i
    ensures order[j] in roots && traces[j] == Spelled(Trace(fs, fs.root, roots[order[j]]))
    ensures forall v :: v in Trace(fs, fs.root, roots[order[j]]) ==> AreNames(v.rest)
  {
    TraceRestsAreNames(fs, fs.root, roots[order[j]]);
  }

  lemma InspectedNext(fs: Fs, roots: map<string, seq<string>>, order: seq<string>, i: nat, traces: seq<seq<Seen>>,
                      trace: seq<Seen>)
    requires IsInspected(fs, roots, order, i, traces) && i < |order|
    requires order[i] in roots && AreNames(roots[order[i]]) && CanWalk(fs, roots[order[i]])
    requires trace == Spelled(Trace(fs, fs.root, roots[order[i]]))
    requires forall k :: 0 <= k < i ==>
               AreSeparate(Trace(fs, fs.root, roots[order[i]]), Trace(fs, fs.root, roots[order[k]]))
    ensures IsInspected(fs, roots, order, i + 1, traces + [trace])
  {
    hide AreSeparate, Trace, CanWalk, AreNames, Spelled;
  }

  lemma InspectedAll(fs: Fs, roots: map<string, seq<string>>, order: seq<string>, traces: seq<seq<Seen>>)
    requires IsInspected(fs, roots, order, |order|, traces)
    requires forall n :: n in roots ==> n in order
    ensures IsAudited(fs, roots)
  {
    hide Trace, Spelled, IsPassable;
    forall n | n in roots
      ensures fs.nodes[fs.root].readable && IsPassable(fs, fs.root, roots[n])
    {
      var k :| 0 <= k < |order| && order[k] == n;
      assert CanWalk(fs, roots[order[k]]);
    }
    forall a, b | a in roots && b in roots && a != b
      ensures AreSeparate(Trace(fs, fs.root, roots[a]), Trace(fs, fs.root, roots[b]))
    {
      var k :| 0 <= k < |order| && order[k] == a;
      var l :| 0 <= l < |order| && order[l] == b;
      assert k < l || l < k;
    }
  }

  lemma UnwalkableRefutes(fs: Fs, roots: map<string, seq<string>>, n: string)
    requires IsFs(fs) && n in roots && !CanWalk(fs, roots[n])
    ensures !IsAudited(fs, roots)
    ensures IsAuditFault(fs, roots, if fs.nodes[fs.root].readable then UnsafeFilesystem else SystemError)
  {
  }

  lemma CollisionRefutes(fs: Fs, roots: map<string, seq<string>>, a: string, b: string)
    requires IsFs(fs) && a in roots && b in roots && a != b
    requires !AreSeparate(Trace(fs, fs.root, roots[a]), Trace(fs, fs.root, roots[b]))
    ensures !IsAudited(fs, roots) && IsAuditFault(fs, roots, OverlappingRoots)
  {
  }
}
