/** Launches race: any number of processes of one user run the audit and creation walks of
    environment_paths.cc at once, one system call at a time, in any interleaving, and any of them
    may stop between two calls. Nothing is deleted. */
module RootRace {

  import opened Wrappers
  import opened Paths
  import opened FileSystem
  import opened Growth
  import opened EnvironmentRoots

  /** The next system call of a walk, or how the walk ended. */
  datatype Phase =
    | Inspecting  // fstat of the current directory
    | Opening     // openat of the next component
    | Creating    // mkdirat after ENOENT
    | Reopening   // openat after mkdirat
    | Complete    // the root was reached
    | Partial     // a walk that creates nothing met a missing component
    | Crashed
    | Failed(code: ErrorCode)

  /** One walk. depth counts the components behind it, seen is the trace it has recorded. */
  datatype Walker = Walker(name: string, create: bool, depth: nat, at: Inode, phase: Phase, seen: seq<Visit>)

  datatype State = State(fs: Fs, walkers: map<nat, Walker>)

  datatype Action = Start(pid: nat, name: string, create: bool) | Step(pid: nat) | Crash(pid: nat)

  type Roots = map<string, seq<string>>

  /** A walker that the program's own control flow allows. */
  predicate IsWalker(fs: Fs, roots: Roots, w: Walker) {
    && w.name in roots && w.at in fs.nodes && w.depth <= |roots[w.name]|
    && (w.phase in {Opening, Creating, Reopening} ==> w.depth < |roots[w.name]|)
  }

  /** One system call of a walk. */
  function Move(fs: Fs, roots: Roots, w: Walker): (Fs, Walker)
    requires IsFs(fs) && IsWalker(fs, roots, w)
  {
    var p := roots[w.name];
    match w.phase
    case Inspecting =>
      if !IsSafe(fs.nodes[w.at], fs.uid, w.depth == |p|) then (fs, w.(phase := Failed(UnsafeFilesystem)))
      else (fs, w.(seen := w.seen + [Visit(w.at, p[w.depth..])],
                   phase := if w.depth == |p| then Complete else Opening))
    case Opening =>
      (match OpenAt(fs, w.at, p[w.depth])
       case Found(n) => (fs, w.(at := n, depth := w.depth + 1, phase := Inspecting))
       case Missing => (fs, w.(phase := if w.create then Creating else Partial))
       case Refused => (fs, w.(phase := Failed(UnsafeFilesystem))))
    case Creating =>
      var parent := fs.nodes[w.at];
      if parent.searchable && p[w.depth] in parent.entries then (fs, w.(phase := Reopening))  // EEXIST
      else if !parent.searchable || !parent.writable then (fs, w.(phase := Failed(SystemError)))
      else (Created(fs, w.at, p[w.depth]), w.(phase := Reopening))
    case Reopening =>
      (match OpenAt(fs, w.at, p[w.depth])
       case Found(n) => (fs, w.(at := n, depth := w.depth + 1, phase := Inspecting))
       case Missing => (fs, w.(phase := Failed(SystemError)))
       case Refused => (fs, w.(phase := Failed(UnsafeFilesystem))))
    case _ => (fs, w)
  }

  predicate IsState(s: State, roots: Roots)
  {
    forall i :: i in s.walkers ==> IsWalker(s.fs, roots, s.walkers[i])
  }

  function Next(s: State, roots: Roots, a: Action): State
    requires IsFs(s.fs) && IsState(s, roots)
  {
    match a
    case Start(pid, name, create) =>
      if pid in s.walkers || name !in roots then s
      else
        var phase := if s.fs.nodes[s.fs.root].readable then Inspecting else Failed(SystemError);
        s.(walkers := s.walkers[pid := Walker(name, create, 0, s.fs.root, phase, [])])
    case Step(pid) =>
      if pid !in s.walkers then s
      else
        var (fs, w) := Move(s.fs, roots, s.walkers[pid]);
        State(fs, s.walkers[pid := w])
    case Crash(pid) =>
      if pid !in s.walkers then s else s.(walkers := s.walkers[pid := s.walkers[pid].(phase := Crashed)])
  }

  /* The invariant of one walk. */

  /** The walk is where a walk of the whole current graph would be at the same depth, and has
      recorded what that walk would record so far. */
  ghost predicate IsOnCourse(fs: Fs, roots: Roots, w: Walker)
    requires IsFs(fs)
  {
    && IsWalker(fs, roots, w)
    && var p := roots[w.name];
    var t := Trace(fs, fs.root, p);
    && w.seen <= t
    && match w.phase
       case Inspecting => |w.seen| == w.depth < |t| && t[w.depth].node == w.at
       case Opening => |w.seen| == w.depth + 1 && t[w.depth].node == w.at
       case Creating => w.create && |w.seen| == w.depth + 1 && t[w.depth].node == w.at && fs.nodes[w.at].searchable
       case Reopening => |w.seen| == w.depth + 1 && t[w.depth].node == w.at
                         && fs.nodes[w.at].searchable && p[w.depth] in fs.nodes[w.at].entries
       case Complete => w.seen == t && |t| == |p| + 1 && Last(t).node == w.at
       case Partial => !w.create
       case Crashed => true
       case Failed(code) => code == SystemError && !CanFinish(fs, p)
  }

  /** Someone else's mkdirat does not push a walk off course. A walk that failed did so at a
      directory the user cannot write to, and no such directory ever gains an entry. */
  lemma OnCourseAfterCreate(fs: Fs, roots: Roots, w: Walker, at: Inode, name: string)
    requires IsFs(fs) && IsOnCourse(fs, roots, w)
    requires at in fs.nodes && name !in fs.nodes[at].entries && fs.nodes[at].writable
    ensures IsFs(Created(fs, at, name)) && IsOnCourse(Created(fs, at, name), roots, w)
  {
    hide Trace, Created, CanFinish;
    var p := roots[w.name];
    var fs' := Created(fs, at, name);
    WalkAfterCreate(fs, at, name, p);
    EntriesAfterCreate(fs, at, name);
    CreatedRoot(fs, at, name);
    var t, t' := Trace(fs, fs.root, p), Trace(fs', fs.root, p);
    TraceLength(fs', p);
    PrefixTransitive(w.seen, t, t');
    assert forall k :: 0 <= k < |t| ==> t'[k] == t[k];
    if w.phase.Complete? {
      assert t == t';
    } else if w.phase.Failed? {
      StuckAfterCreate(fs, p, at, name);
    }
  }

  lemma TraceLength(fs: Fs, p: seq<string>)
    requires IsFs(fs)
    ensures 1 <= |Trace(fs, fs.root, p)| <= |p| + 1
  {
  }

  lemma StuckAfterCreate(fs: Fs, p: seq<string>, at: Inode, name: string)
    requires IsFs(fs) && !CanFinish(fs, p)
    requires at in fs.nodes && name !in fs.nodes[at].entries && fs.nodes[at].writable
    ensures IsFs(Created(fs, at, name)) && !CanFinish(Created(fs, at, name), p)
  {
    hide Trace;
    TraceAfterCreate(fs, at, name, fs.root, p);
    TraceStaysInside(fs, fs.root, p);
    CreatedRoot(fs, at, name);
    var t := Trace(fs, fs.root, p);
    assert Last(t) in t;
  }

  /** One system call of a walk keeps it on course; after an accepted audit it never meets an
      unsafe or vanished directory. */
  lemma MoveStaysOnCourse(fs: Fs, roots: Roots, w: Walker)
    requires IsAudited(fs, roots) && IsOnCourse(fs, roots, w)
    ensures var (fs', w') := Move(fs, roots, w); IsFs(fs') && IsOnCourse(fs', roots, w')
  {
    hide Trace, Created, CanFinish, IsPassable, IsSafe, AreSeparate, OpenAt;
    var p := roots[w.name];
    var t := Trace(fs, fs.root, p);
    if w.phase in {Inspecting, Opening, Creating, Reopening} {
      TraceSuffix(fs, fs.root, p, w.depth);
      PassableSuffix(fs, fs.root, p, w.depth);
      PassableStep(fs, w.at, p[w.depth..]);
      assert t[w.depth] == Visit(w.at, p[w.depth..]);
      if w.phase.Inspecting? {
        SeenNext(w.seen, t);
        if w.depth == |p| {
          TraceLength(fs, p);
        }
      } else {
        NextPlace(fs, fs.root, p, w.depth);
        OpenedEntry(fs, w.at, p[w.depth]);
        if w.phase.Creating? && p[w.depth] !in fs.nodes[w.at].entries {
          assert w.depth == |t| - 1;
          UnfinishedCanFinish(fs, p);
          if fs.nodes[w.at].writable {
            OnCourseAfterCreate(fs, roots, w, w.at, p[w.depth]);
            MadeEntry(fs, w.at, p[w.depth]);
          }
        }
      }
    }
  }

  lemma SeenNext<T>(seen: seq<T>, t: seq<T>)
    requires seen <= t && |seen| < |t|
    ensures seen + [t[|seen|]] <= t
  {
  }

  lemma OpenedEntry(fs: Fs, at: Inode, name: string)
    requires IsFs(fs) && at in fs.nodes
    ensures OpenAt(fs, at, name).Missing? ==> fs.nodes[at].searchable && name !in fs.nodes[at].entries
    ensures OpenAt(fs, at, name).Found? ==> OpenAt(fs, at, name).inode in fs.nodes
    ensures fs.nodes[at].searchable && name in fs.nodes[at].entries ==> !OpenAt(fs, at, name).Missing?
    ensures name !in fs.nodes[at].entries ==> !OpenAt(fs, at, name).Found?
  {
  }

  lemma MadeEntry(fs: Fs, at: Inode, name: string)
    requires IsFs(fs) && at in fs.nodes
    ensures at in Created(fs, at, name).nodes && name in Created(fs, at, name).nodes[at].entries
    ensures at < fs.next && Created(fs, at, name).nodes[at].searchable == fs.nodes[at].searchable
  {
  }

  /* The invariant of the whole run. */

  ghost predicate Invariant(fs0: Fs, s: State, roots: Roots) {
    && IsAudited(s.fs, roots)
    && IsGrownFrom(fs0, s.fs, roots.Values)
    && (forall i :: i in s.walkers ==> IsOnCourse(s.fs, roots, s.walkers[i]))
    && (forall n :: n in roots && CanFinish(fs0, roots[n]) ==> CanFinish(s.fs, roots[n]))
  }

  /** A system call makes nothing, or one missing entry of its own walk in a writable directory. */
  lemma MoveMakes(fs: Fs, roots: Roots, w: Walker)
    requires IsFs(fs) && IsOnCourse(fs, roots, w)
    ensures var (fs', w') := Move(fs, roots, w);
            || fs' == fs
            || (&& w.phase.Creating? && fs.nodes[w.at].writable && roots[w.name][w.depth] !in fs.nodes[w.at].entries
                && fs' == Created(fs, w.at, roots[w.name][w.depth])
                && IsOnSomeWalk(fs, roots.Values, w.at, roots[w.name][w.depth]))
  {
    if w.phase.Creating? {
      var p := roots[w.name];
      var t := Trace(fs, fs.root, p);
      TraceSuffix(fs, fs.root, p, w.depth);
      assert t[w.depth] in t;
      assert p in roots.Values && IsOnWalk(fs, p, w.at, p[w.depth]);
    }
  }

  lemma {:induction false} NextKeepsInvariant(fs0: Fs, s: State, roots: Roots, a: Action)
    requires Invariant(fs0, s, roots)
    ensures IsState(s, roots) && Invariant(fs0, Next(s, roots, a), roots)
  {
    hide IsGrownFrom, CanFinish, IsAudited, Move, Created, IsOnSomeWalk, IsOnCourse;
    AuditedIsFs(s.fs, roots);
    OnCourseIsState(s, roots);
    match a
    case Start(pid, name, create) =>
      if pid !in s.walkers && name in roots {
        StartsOnCourse(s.fs, roots, name, create);
      }
    case Crash(pid) =>
      if pid in s.walkers {
        CrashStaysOnCourse(s.fs, roots, s.walkers[pid]);
      }
    case Step(pid) =>
      if pid in s.walkers {
        var w := s.walkers[pid];
        MoveMakes(s.fs, roots, w);
        MoveStaysOnCourse(s.fs, roots, w);
        if Move(s.fs, roots, w).0 != s.fs {
          CreateKeepsInvariant(fs0, s, roots, w.at, roots[w.name][w.depth]);
        }
      }
  }

  lemma CreateKeepsInvariant(fs0: Fs, s: State, roots: Roots, at: Inode, name: string)
    requires Invariant(fs0, s, roots)
    requires at in s.fs.nodes && name !in s.fs.nodes[at].entries && s.fs.nodes[at].writable
    requires IsOnSomeWalk(s.fs, roots.Values, at, name)
    ensures Invariant(fs0, s.(fs := Created(s.fs, at, name)), roots)
  {
    hide IsGrownFrom, CanFinish, IsAudited, Created, IsOnSomeWalk, IsOnCourse;
    AuditedIsFs(s.fs, roots);
    GrownBase(fs0, s.fs, roots.Values);
    CreatedIsFs(s.fs, at, name);
    AuditAfterCreate(s.fs, roots, at, name);
    GrownAfterCreate(fs0, s.fs, roots.Values, at, name);
    forall i | i in s.walkers
      ensures IsOnCourse(Created(s.fs, at, name), roots, s.walkers[i])
    {
      OnCourseAfterCreate(s.fs, roots, s.walkers[i], at, name);
    }
    forall n | n in roots && CanFinish(fs0, roots[n])
      ensures CanFinish(Created(s.fs, at, name), roots[n])
    {
      WalkAfterCreate(s.fs, at, name, roots[n]);
    }
  }

  lemma GrownBase(fs0: Fs, fs: Fs, paths: set<seq<string>>)
    requires IsGrownFrom(fs0, fs, paths)
    ensures IsFs(fs0)
  {
  }

  lemma OnCourseIsState(s: State, roots: Roots)
    requires IsFs(s.fs) && forall i :: i in s.walkers ==> IsOnCourse(s.fs, roots, s.walkers[i])
    ensures IsState(s, roots)
  {
  }

  lemma StartsOnCourse(fs: Fs, roots: Roots, name: string, create: bool)
    requires IsAudited(fs, roots) && name in roots
    ensures fs.nodes[fs.root].readable && IsOnCourse(fs, roots, Walker(name, create, 0, fs.root, Inspecting, []))
  {
  }

  lemma CrashStaysOnCourse(fs: Fs, roots: Roots, w: Walker)
    requires IsFs(fs) && IsOnCourse(fs, roots, w)
    ensures IsOnCourse(fs, roots, w.(phase := Crashed))
  {
  }

  ghost predicate CanRun(s: State, roots: Roots, actions: seq<Action>)
    decreases |actions|
  {
    && IsFs(s.fs) && IsState(s, roots)
    && (actions != [] ==> CanRun(Next(s, roots, actions[0]), roots, actions[1..]))
  }

  ghost function Run(s: State, roots: Roots, actions: seq<Action>): State
    requires CanRun(s, roots, actions)
    decreases |actions|
  {
    if actions == [] then s else Run(Next(s, roots, actions[0]), roots, actions[1..])
  }

  lemma {:induction false} RunKeepsInvariant(fs0: Fs, s: State, roots: Roots, actions: seq<Action>)
    requires Invariant(fs0, s, roots)
    ensures CanRun(s, roots, actions) && Invariant(fs0, Run(s, roots, actions), roots)
    decreases |actions|
  {
    hide Invariant, Next;
    InvariantIsState(fs0, s, roots);
    if actions != [] {
      NextKeepsInvariant(fs0, s, roots, actions[0]);
      RunKeepsInvariant(fs0, Next(s, roots, actions[0]), roots, actions[1..]);
    }
  }

  lemma InvariantIsState(fs0: Fs, s: State, roots: Roots)
    requires Invariant(fs0, s, roots)
    ensures IsFs(s.fs) && IsState(s, roots)
  {
  }

  /* What every reachable state promises. */

  /** Start from a graph whose audit accepts the roots, and let any processes audit or prepare any
      of them in any interleaving. In every state reached, the audit still accepts exactly the same
      roots, and the graph differs only by private directories on the walks of the roots. */
  lemma RaceKeepsAudit(fs: Fs, roots: Roots, actions: seq<Action>)
    requires IsAudited(fs, roots)
    ensures CanRun(State(fs, map[]), roots, actions)
    ensures var s := Run(State(fs, map[]), roots, actions);
            Invariant(fs, s, roots) && IsAudited(s.fs, roots) && IsGrownFrom(fs, s.fs, roots.Values)
  {
    GrownFromSelf(fs, roots.Values);
    RunKeepsInvariant(fs, State(fs, map[]), roots, actions);
  }

  /** All processes that finish preparing the same root hold the same directory, which satisfies
      the final check; processes of different roots never hold, or even pass, each other's. */
  lemma RaceAgrees(fs: Fs, roots: Roots, actions: seq<Action>, i: nat, j: nat)
    requires IsAudited(fs, roots) && CanRun(State(fs, map[]), roots, actions)
    requires var s := Run(State(fs, map[]), roots, actions);
             i in s.walkers && j in s.walkers && s.walkers[i].phase.Complete?
    ensures var s := Run(State(fs, map[]), roots, actions);
            var v, w := s.walkers[i], s.walkers[j];
            && v.at in s.fs.nodes && IsSafe(s.fs.nodes[v.at], s.fs.uid, true)
            && (w.phase.Complete? && v.name == w.name ==> v.at == w.at)
            && (v.name != w.name ==> forall u :: u in w.seen ==> u.node != v.at)
  {
    hide Run, CanRun, IsGrownFrom, IsOnCourse;
    RaceKeepsAudit(fs, roots, actions);
    var s := Run(State(fs, map[]), roots, actions);
    var v, w := s.walkers[i], s.walkers[j];
    assert IsOnCourse(s.fs, roots, v) && IsOnCourse(s.fs, roots, w);
    FinisherIsAtEnd(s.fs, roots, v);
    if w.phase.Complete? && v.name == w.name {
      FinisherIsAtEnd(s.fs, roots, w);
    }
    if v.name != w.name {
      FinisherIsNotPassed(s.fs, roots, v, w);
    }
  }

  /** A finished walk holds the last directory of its root's whole walk, and it is private. */
  lemma FinisherIsAtEnd(fs: Fs, roots: Roots, v: Walker)
    requires IsAudited(fs, roots) && IsOnCourse(fs, roots, v) && v.phase.Complete?
    ensures Last(Trace(fs, fs.root, roots[v.name])).node == v.at
    ensures v.at in fs.nodes && IsSafe(fs.nodes[v.at], fs.uid, true)
  {
    hide Trace, IsSafe;
    var p := roots[v.name];
    TraceSuffix(fs, fs.root, p, |p|);
    PassableSuffix(fs, fs.root, p, |p|);
    PassableStep(fs, v.at, []);
  }

  lemma FinisherIsNotPassed(fs: Fs, roots: Roots, v: Walker, w: Walker)
    requires IsAudited(fs, roots) && v.name != w.name
    requires IsOnCourse(fs, roots, v) && IsOnCourse(fs, roots, w) && v.phase.Complete?
    ensures forall u :: u in w.seen ==> u.node != v.at
  {
    hide Trace, IsSafe;
    TraceSuffix(fs, fs.root, roots[v.name], |roots[v.name]|);
    RootIsOnNoOtherWalk(fs, roots, v.name, w.name);
  }

  /** An audit whose walks read the graph call by call while others create in it still sees
      disjoint walks, and fails neither as unsafe nor as overlapping. Preparation fails only at a
      directory the user may not extend, so never for a root that could be prepared at the start. */
  lemma RaceNeverMisreports(fs: Fs, roots: Roots, actions: seq<Action>, i: nat, j: nat)
    requires IsAudited(fs, roots) && CanRun(State(fs, map[]), roots, actions)
    requires i in Run(State(fs, map[]), roots, actions).walkers && j in Run(State(fs, map[]), roots, actions).walkers
    ensures var s := Run(State(fs, map[]), roots, actions);
            var v, w := s.walkers[i], s.walkers[j];
            && v.name in roots
            && (v.name != w.name ==> AreSeparate(v.seen, w.seen))
            && (v.phase.Failed? ==> v.phase.code == SystemError && !CanFinish(fs, roots[v.name]))
  {
    hide Trace, IsSafe, IsGrownFrom, Run, CanRun, CanFinish;
    RaceKeepsAudit(fs, roots, actions);
    var s := Run(State(fs, map[]), roots, actions);
    var v, w := s.walkers[i], s.walkers[j];
    assert IsOnCourse(s.fs, roots, v) && IsOnCourse(s.fs, roots, w);
    if v.name != w.name {
      PrefixesAreSeparate(v.seen, Trace(s.fs, s.fs.root, roots[v.name]), w.seen, Trace(s.fs, s.fs.root, roots[w.name]));
    }
  }

  lemma PrefixesAreSeparate(a: seq<Visit>, s: seq<Visit>, b: seq<Visit>, t: seq<Visit>)
    requires a <= s && b <= t && AreSeparate(s, t)
    ensures AreSeparate(a, b)
  {
    forall v, w | v in a && w in b && v.node == w.node
      ensures !Overlap(v.rest, w.rest)
    {
      assert v in s && w in t;
    }
  }

  /** Calls a walk still needs at most. */
  function Remaining(roots: Roots, w: Walker): nat
    requires w.name in roots && w.depth <= |roots[w.name]|
  {
    var ahead := 4 * (|roots[w.name]| - w.depth);
    match w.phase
    case Inspecting => ahead + 1
    case Opening => ahead
    case Creating => if ahead > 0 then ahead - 1 else 0
    case Reopening => if ahead > 1 then ahead - 2 else 0
    case _ => 0
  }

  /** Every call brings its own walk nearer to its end, and no other process's call holds it up. */
  lemma WalkTerminates(s: State, roots: Roots, a: Action, pid: nat)
    requires IsFs(s.fs) && IsState(s, roots) && pid in s.walkers
    ensures pid in Next(s, roots, a).walkers
    ensures !(a.Crash? && a.pid == pid) ==>
              var w, w' := s.walkers[pid], Next(s, roots, a).walkers[pid];
              && w'.name == w.name && w'.depth <= |roots[w'.name]|
              && (a == Step(pid) && w.phase in {Inspecting, Opening, Creating, Reopening} ==>
                    Remaining(roots, w') < Remaining(roots, w))
              && (a != Step(pid) ==> w' == w)
  {
  }

  /* One process alone. */

  lemma MoveIsWalker(fs: Fs, roots: Roots, w: Walker)
    requires IsFs(fs) && IsWalker(fs, roots, w)
    ensures IsFs(Move(fs, roots, w).0) && IsWalker(Move(fs, roots, w).0, roots, Move(fs, roots, w).1)
  {
    if w.phase.Creating? { CreatedIsFs(fs, w.at, roots[w.name][w.depth]); }
  }

  /** The next n calls of a walk with nothing in between. */
  function Moves(fs: Fs, roots: Roots, w: Walker, n: nat): (Fs, Walker)
    requires IsFs(fs) && IsWalker(fs, roots, w)
    decreases n
  {
    if n == 0 then (fs, w)
    else
      MoveIsWalker(fs, roots, w);
      Moves(Move(fs, roots, w).0, roots, Move(fs, roots, w).1, n - 1)
  }

  lemma MovesFirst(fs: Fs, roots: Roots, w: Walker, n: nat)
    requires IsFs(fs) && IsWalker(fs, roots, w)
    ensures IsFs(Move(fs, roots, w).0) && IsWalker(Move(fs, roots, w).0, roots, Move(fs, roots, w).1)
    ensures Moves(fs, roots, w, n + 1) == Moves(Move(fs, roots, w).0, roots, Move(fs, roots, w).1, n)
  {
    MoveIsWalker(fs, roots, w);
  }

  /** Undisturbed, the calls of a creating walk do what the walk does as one operation: they leave the
      same graph and end with the same directory or the same error. */
  lemma {:induction false} AloneIsMakePath(fs: Fs, roots: Roots, w: Walker) returns (n: nat)
    requires IsFs(fs) && IsWalker(fs, roots, w) && w.create && w.phase.Inspecting?
    ensures var (fs', w') := Moves(fs, roots, w, n);
            var (made, r) := MakePath(fs, w.at, roots[w.name][w.depth..]);
            && fs' == made
            && match r
               case Ok(node) => w'.phase.Complete? && w'.at == node
               case Err(code) => w'.phase == Failed(code)
    decreases |roots[w.name]| - w.depth, 1
  {
    hide IsSafe, OpenAt, Created, IsFs;
    var p := roots[w.name];
    var rest := p[w.depth..];
    MovesFirst(fs, roots, w, 0);
    var w1 := Move(fs, roots, w).1;
    if w1.phase != Opening { return 1; }
    assert rest[0] == p[w.depth] && rest[1..] == p[w.depth + 1..];
    MovesFirst(fs, roots, w1, 0);
    var w2 := Move(fs, roots, w1).1;
    MovesFirst(fs, roots, w, 1);
    match OpenAt(fs, w.at, p[w.depth]) {
      case Refused => return 2;
      case Found(_) =>
        n := AloneIsMakePath(fs, roots, w2);
        MovesFirst(fs, roots, w1, n);
        MovesFirst(fs, roots, w, n + 1);
        n := n + 2;
      case Missing => n := AloneCreates(fs, roots, w, w1, w2);
    }
  }

  lemma {:induction false} AloneCreates(fs: Fs, roots: Roots, w: Walker, w1: Walker, w2: Walker) returns (n: nat)
    requires IsFs(fs) && IsWalker(fs, roots, w) && w.create && w.phase.Inspecting? && w.depth < |roots[w.name]|
    requires IsSafe(fs.nodes[w.at], fs.uid, false) && OpenAt(fs, w.at, roots[w.name][w.depth]).Missing?
    requires Move(fs, roots, w) == (fs, w1) && w1.phase.Opening? && IsWalker(fs, roots, w1) && Move(fs, roots, w1) == (fs, w2)
    ensures var (fs', w') := Moves(fs, roots, w, n);
            var (made, r) := MakePath(fs, w.at, roots[w.name][w.depth..]);
            && fs' == made
            && match r
               case Ok(node) => w'.phase.Complete? && w'.at == node
               case Err(code) => w'.phase == Failed(code)
    decreases |roots[w.name]| - w.depth, 0
  {
    hide IsSafe, Created, IsFs;
    var p := roots[w.name];
    var rest := p[w.depth..];
    assert rest[0] == p[w.depth] && rest[1..] == p[w.depth + 1..];
    MovesFirst(fs, roots, w1, 1);
    MovesFirst(fs, roots, w, 2);
    MovesFirst(fs, roots, w2, 0);
    if !fs.nodes[w.at].writable { return 3; }
    MissingEntry(fs, w.at, p[w.depth]);
    OpenAfterCreate(fs, w.at, p[w.depth], w.at, p[w.depth]);
    CreatedNext(fs, w.at, p[w.depth]);
    var made, w3 := Created(fs, w.at, p[w.depth]), Move(fs, roots, w2).1;
    MovesFirst(made, roots, w3, 0);
    var w4 := Move(made, roots, w3).1;
    n := AloneIsMakePath(made, roots, w4);
    MovesFirst(made, roots, w3, n);
    MovesFirst(fs, roots, w2, n + 1);
    MovesFirst(fs, roots, w1, n + 2);
    MovesFirst(fs, roots, w, n + 3);
    n := n + 4;
  }

  /** Undisturbed, the calls of a walk that creates nothing do what the audit does: they record the whole walk
      if it is passable, and fail as unsafe if it is not. */
  lemma {:induction false} AloneIsInspect(fs: Fs, roots: Roots, w: Walker) returns (n: nat)
    requires IsFs(fs) && IsWalker(fs, roots, w) && !w.create && w.phase.Inspecting?
    ensures var (fs', w') := Moves(fs, roots, w, n);
            var rest := roots[w.name][w.depth..];
            && fs' == fs
            && if IsPassable(fs, w.at, rest)
               then w'.seen == w.seen + Trace(fs, w.at, rest)
                    && w'.phase == if Last(Trace(fs, w.at, rest)).rest == [] then Complete else Partial
               else w'.phase == Failed(UnsafeFilesystem)
    decreases |roots[w.name]| - w.depth
  {
    hide IsSafe, OpenAt, IsFs;
    if w.depth == |roots[w.name]| || !OpenAt(fs, w.at, roots[w.name][w.depth]).Found? {
      TraceEnds(fs, w.at, roots[w.name][w.depth..]);
    }
    hide Trace;
    var p := roots[w.name];
    var rest := p[w.depth..];
    MovesFirst(fs, roots, w, 0);
    var w1 := Move(fs, roots, w).1;
    if w1.phase != Opening { return 1; }
    assert rest[0] == p[w.depth] && rest[1..] == p[w.depth + 1..];
    MovesFirst(fs, roots, w1, 0);
    var w2 := Move(fs, roots, w1).1;
    MovesFirst(fs, roots, w, 1);
    if OpenAt(fs, w.at, p[w.depth]).Found? {
      n := AloneIsInspect(fs, roots, w2);
      LastOfRest(fs, w.at, rest);
      TracedNext(fs, w.at, rest, w.seen);
      MovesFirst(fs, roots, w1, n);
      MovesFirst(fs, roots, w, n + 1);
      n := n + 2;
    } else {
      n := 2;
    }
  }

  lemma TracedNext(fs: Fs, at: Inode, parts: seq<string>, seen: seq<Visit>)
    requires IsFs(fs) && at in fs.nodes && parts != [] && OpenAt(fs, at, parts[0]).Found?
    ensures seen + [Visit(at, parts)] + Trace(fs, OpenAt(fs, at, parts[0]).inode, parts[1..]) == seen + Trace(fs, at, parts)
  {
  }

  lemma TraceEnds(fs: Fs, at: Inode, parts: seq<string>)
    requires IsFs(fs) && at in fs.nodes && (parts == [] || !OpenAt(fs, at, parts[0]).Found?)
    ensures Trace(fs, at, parts) == [Visit(at, parts)]
  {
  }
}
