/** What stays true of a directory graph while private directories are made in it. */
module Growth {

  import opened Wrappers
  import opened Paths
  import opened FileSystem

  /* Places on a walk. */

  lemma {:induction false} TraceSuffix(fs: Fs, from: Inode, p: seq<string>, k: nat)
    requires IsFs(fs) && from in fs.nodes && k < |Trace(fs, from, p)|
    ensures var v := Trace(fs, from, p)[k];
            v.node in fs.nodes && k <= |p| && v.rest == p[k..] && Trace(fs, from, p)[k..] == Trace(fs, v.node, v.rest)
    decreases k
  {
    if k > 0 {
      var n := OpenAt(fs, from, p[0]).inode;
      TraceSuffix(fs, n, p[1..], k - 1);
      assert Trace(fs, from, p)[k..] == Trace(fs, n, p[1..])[k - 1..];
    }
  }

  lemma {:induction false} PassableSuffix(fs: Fs, from: Inode, p: seq<string>, k: nat)
    requires IsFs(fs) && from in fs.nodes && k < |Trace(fs, from, p)| && IsPassable(fs, from, p)
    ensures var v := Trace(fs, from, p)[k]; v.node in fs.nodes && IsPassable(fs, v.node, v.rest)
    decreases k
  {
    TraceSuffix(fs, from, p, k);
    if k > 0 {
      PassableSuffix(fs, OpenAt(fs, from, p[0]).inode, p[1..], k - 1);
    }
  }

  /** Opening the next component from the k-th place of a walk leads to its next place. */
  lemma NextPlace(fs: Fs, from: Inode, p: seq<string>, k: nat)
    requires IsFs(fs) && from in fs.nodes && k < |Trace(fs, from, p)| && k < |p|
    ensures var v := Trace(fs, from, p)[k];
            && v.node in fs.nodes && v.rest != [] && v.rest[0] == p[k]
            && (OpenAt(fs, v.node, p[k]).Found? <==> k + 1 < |Trace(fs, from, p)|)
            && (OpenAt(fs, v.node, p[k]).Found? ==>
                  Trace(fs, from, p)[k + 1] == Visit(OpenAt(fs, v.node, p[k]).inode, p[k + 1..]))
  {
    TraceSuffix(fs, from, p, k);
    var t, v := Trace(fs, from, p), Trace(fs, from, p)[k];
    var u := Trace(fs, v.node, v.rest);
    assert |u| == |t| - k;
    if OpenAt(fs, v.node, p[k]).Found? {
      assert v.rest[1..] == p[k + 1..];
      assert u[1] == Trace(fs, OpenAt(fs, v.node, p[k]).inode, v.rest[1..])[0];
      assert t[k + 1] == t[k..][1];
    }
  }

  /** The root exists already, or the last directory on its walk lets the user extend it. */
  predicate CanFinish(fs: Fs, p: seq<string>)
    requires IsFs(fs)
  {
    var v := Last(Trace(fs, fs.root, p));
    v.rest == [] || (v.node in fs.nodes && fs.nodes[v.node].writable)
  }

  predicate IsComplete(fs: Fs, p: seq<string>)
    requires IsFs(fs)
  {
    Last(Trace(fs, fs.root, p)).rest == []
  }

  /* The relation between an earlier and a later state. */

  predicate IsSameDirectory(a: Node, b: Node) {
    b == a.(entries := b.entries)
  }

  /** The entry name of directory i lies on the walk of p. */
  ghost predicate IsOnWalk(fs: Fs, p: seq<string>, i: Inode, name: string)
    requires IsFs(fs)
  {
    exists v :: v in Trace(fs, fs.root, p) && v.node == i && v.rest != [] && v.rest[0] == name
  }

  ghost predicate IsOnSomeWalk(fs: Fs, paths: set<seq<string>>, i: Inode, name: string)
    requires IsFs(fs)
  {
    exists p :: p in paths && IsOnWalk(fs, p, i, name)
  }

  ghost predicate KeepsNodes(fs0: Fs, fs: Fs) {
    && fs.root == fs0.root && fs.uid == fs0.uid && fs0.next <= fs.next
    && forall i :: i in fs0.nodes ==>
        && i in fs.nodes && IsSameDirectory(fs0.nodes[i], fs.nodes[i])
        && forall n :: n in fs0.nodes[i].entries ==>
            n in fs.nodes[i].entries && fs.nodes[i].entries[n] == fs0.nodes[i].entries[n]
  }

  /** fs differs from fs0 only by private directories of the same user, mode 0700, and the only
      entries added are components of the given paths, on their walks. */
  ghost predicate IsGrownFrom(fs0: Fs, fs: Fs, paths: set<seq<string>>) {
    && IsFs(fs0) && IsFs(fs) && KeepsNodes(fs0, fs)
    && (forall i :: i in fs.nodes && i !in fs0.nodes ==> IsSameDirectory(PrivateDirectory(fs0.uid), fs.nodes[i]))
    && (forall i, n :: i in fs.nodes && n in fs.nodes[i].entries ==>
          || (i in fs0.nodes && n in fs0.nodes[i].entries)
          || IsOnSomeWalk(fs, paths, i, n))
  }

  lemma GrownFromSelf(fs: Fs, paths: set<seq<string>>)
    requires IsFs(fs)
    ensures IsGrownFrom(fs, fs, paths)
  {
  }

  lemma OnWalkAfterCreate(fs: Fs, at: Inode, name: string, p: seq<string>, i: Inode, n: string)
    requires IsFs(fs) && at in fs.nodes && name !in fs.nodes[at].entries && IsOnWalk(fs, p, i, n)
    ensures IsFs(Created(fs, at, name)) && IsOnWalk(Created(fs, at, name), p, i, n)
  {
    hide Trace, Created;
    TraceAfterCreate(fs, at, name, fs.root, p);
    CreatedRoot(fs, at, name);
    var v :| v in Trace(fs, fs.root, p) && v.node == i && v.rest != [] && v.rest[0] == n;
    assert v in Trace(Created(fs, at, name), fs.root, p);
  }

  lemma EntriesAfterCreate(fs: Fs, at: Inode, name: string)
    requires IsFs(fs) && at in fs.nodes && name !in fs.nodes[at].entries
    ensures IsFs(Created(fs, at, name)) && KeepsNodes(fs, Created(fs, at, name))
    ensures Created(fs, at, name).nodes.Keys == fs.nodes.Keys + {fs.next} && fs.next !in fs.nodes
    ensures Created(fs, at, name).nodes[fs.next] == PrivateDirectory(fs.uid)
    ensures forall i, n :: i in Created(fs, at, name).nodes && n in Created(fs, at, name).nodes[i].entries ==>
              (i in fs.nodes && n in fs.nodes[i].entries) || (i == at && n == name)
  {
    CreatedIsFs(fs, at, name);
  }

  lemma KeepsTransitive(a: Fs, b: Fs, c: Fs)
    requires KeepsNodes(a, b) && KeepsNodes(b, c)
    ensures KeepsNodes(a, c)
  {
  }

  lemma GrownAfterCreate(fs0: Fs, fs: Fs, paths: set<seq<string>>, at: Inode, name: string)
    requires IsGrownFrom(fs0, fs, paths)
    requires at in fs.nodes && name !in fs.nodes[at].entries && IsOnSomeWalk(fs, paths, at, name)
    ensures IsGrownFrom(fs0, Created(fs, at, name), paths)
  {
    hide Created, IsOnWalk, KeepsNodes;
    var fs' := Created(fs, at, name);
    EntriesAfterCreate(fs, at, name);
    KeepsTransitive(fs0, fs, fs');
    SameAfterCreate(fs0, fs, at, name);
    forall i, n | i in fs'.nodes && n in fs'.nodes[i].entries && !(i in fs0.nodes && n in fs0.nodes[i].entries)
      ensures IsOnSomeWalk(fs', paths, i, n)
    {
      var p :| p in paths && IsOnWalk(fs, p, i, n);
      OnWalkAfterCreate(fs, at, name, p, i, n);
    }
  }

  lemma SameAfterCreate(fs0: Fs, fs: Fs, at: Inode, name: string)
    requires IsFs(fs) && KeepsNodes(fs0, fs) && at in fs.nodes && name !in fs.nodes[at].entries
    requires forall i :: i in fs.nodes && i !in fs0.nodes ==> IsSameDirectory(PrivateDirectory(fs0.uid), fs.nodes[i])
    ensures forall i :: i in Created(fs, at, name).nodes && i !in fs0.nodes ==>
              IsSameDirectory(PrivateDirectory(fs0.uid), Created(fs, at, name).nodes[i])
  {
  }

  /* Any number of directories made. */

  datatype Making = Making(at: Inode, name: string)

  ghost predicate CanReplay(fs: Fs, steps: seq<Making>)
    decreases |steps|
  {
    IsFs(fs) &&
    (steps != [] ==>
       && steps[0].at in fs.nodes && steps[0].name !in fs.nodes[steps[0].at].entries
       && CanReplay(Created(fs, steps[0].at, steps[0].name), steps[1..]))
  }

  ghost function Replay(fs: Fs, steps: seq<Making>): Fs
    requires CanReplay(fs, steps)
    decreases |steps|
  {
    if steps == [] then fs else Replay(Created(fs, steps[0].at, steps[0].name), steps[1..])
  }

  /** Whatever is made, an accepted audit stays accepted. */
  lemma {:induction false} AuditAfterReplay(fs: Fs, steps: seq<Making>, roots: map<string, seq<string>>)
    requires CanReplay(fs, steps) && IsAudited(fs, roots)
    ensures IsAudited(Replay(fs, steps), roots)
    decreases |steps|
  {
    if steps != [] {
      AuditAfterCreate(fs, roots, steps[0].at, steps[0].name);
      AuditAfterReplay(Created(fs, steps[0].at, steps[0].name), steps[1..], roots);
    }
  }

  lemma WalkAfterCreate(fs: Fs, at: Inode, name: string, p: seq<string>)
    requires IsFs(fs) && at in fs.nodes && name !in fs.nodes[at].entries
    ensures IsFs(Created(fs, at, name))
    ensures Trace(fs, fs.root, p) <= Trace(Created(fs, at, name), fs.root, p)
    ensures CanFinish(fs, p) ==> CanFinish(Created(fs, at, name), p)
  {
    hide Trace, Created;
    TraceAfterCreate(fs, at, name, fs.root, p);
    CreatedRoot(fs, at, name);
    EntriesAfterCreate(fs, at, name);
    TraceStaysInside(fs, fs.root, p);
    var t, t' := Trace(fs, fs.root, p), Trace(Created(fs, at, name), fs.root, p);
    assert Last(t) in t;
    if t' != t {
      assert Last(t').node == fs.next;
    }
  }

  /** Walks only ever get longer, and a root that could be prepared can still be. */
  lemma {:induction false} WalkAfterReplay(fs: Fs, steps: seq<Making>, p: seq<string>)
    requires CanReplay(fs, steps)
    ensures IsFs(Replay(fs, steps)) && KeepsNodes(fs, Replay(fs, steps))
    ensures Trace(fs, fs.root, p) <= Trace(Replay(fs, steps), fs.root, p)
    ensures CanFinish(fs, p) ==> CanFinish(Replay(fs, steps), p)
    decreases |steps|
  {
    hide Trace, CanFinish, Created, KeepsNodes;
    if steps == [] {
      GrownFromSelf(fs, {});
    } else {
      var fs' := Created(fs, steps[0].at, steps[0].name);
      EntriesAfterCreate(fs, steps[0].at, steps[0].name);
      WalkAfterCreate(fs, steps[0].at, steps[0].name, p);
      CreatedRoot(fs, steps[0].at, steps[0].name);
      WalkAfterReplay(fs', steps[1..], p);
      KeepsTransitive(fs, fs', Replay(fs', steps[1..]));
      PrefixTransitive(Trace(fs, fs.root, p), Trace(fs', fs.root, p), Trace(Replay(fs', steps[1..]), fs.root, p));
    }
  }

  lemma PrefixTransitive<T>(a: seq<T>, b: seq<T>, c: seq<T>)
    requires a <= b && b <= c
    ensures a <= c
  {
  }

  /** A complete walk is frozen: later steps change neither it nor the directory it ends at. */
  lemma CompleteIsFrozen(fs: Fs, steps: seq<Making>, p: seq<string>)
    requires CanReplay(fs, steps) && IsFs(fs) && IsComplete(fs, p)
    ensures IsFs(Replay(fs, steps)) && KeepsNodes(fs, Replay(fs, steps))
    ensures Trace(Replay(fs, steps), fs.root, p) == Trace(fs, fs.root, p)
  {
    hide Trace, Replay, Created;
    WalkAfterReplay(fs, steps, p);
    var t, t' := Trace(fs, fs.root, p), Trace(Replay(fs, steps), fs.root, p);
    TraceSuffix(fs, fs.root, p, |t| - 1);
    assert |t| == |p| + 1;
    assert t'[..|t|] == t;
  }

  /* Composing growth. */

  /** A walk in an earlier graph is the beginning of the same walk in a later one. */
  lemma {:induction false} TraceMonotone(b: Fs, c: Fs, from: Inode, p: seq<string>)
    requires IsFs(b) && IsFs(c) && KeepsNodes(b, c) && from in b.nodes
    ensures from in c.nodes && Trace(b, from, p) <= Trace(c, from, p)
    decreases |p|
  {
    if p != [] && OpenAt(b, from, p[0]).Found? {
      var n := OpenAt(b, from, p[0]).inode;
      OpenMonotone(b, c, from, p[0]);
      TraceMonotone(b, c, n, p[1..]);
      assert Trace(b, from, p) == [Visit(from, p)] + Trace(b, n, p[1..]);
      assert Trace(c, from, p) == [Visit(from, p)] + Trace(c, n, p[1..]);
    }
  }

  lemma OpenMonotone(b: Fs, c: Fs, at: Inode, name: string)
    requires IsFs(b) && IsFs(c) && KeepsNodes(b, c) && at in b.nodes && OpenAt(b, at, name).Found?
    ensures at in c.nodes && OpenAt(c, at, name) == OpenAt(b, at, name)
  {
    assert name in c.nodes[at].entries && c.nodes[at].entries[name] == b.nodes[at].entries[name];
    assert IsSameDirectory(b.nodes[b.nodes[at].entries[name]], c.nodes[b.nodes[at].entries[name]]);
  }

  lemma OnWalkMonotone(b: Fs, c: Fs, p: seq<string>, i: Inode, n: string)
    requires IsFs(b) && IsFs(c) && KeepsNodes(b, c) && IsOnWalk(b, p, i, n)
    ensures IsOnWalk(c, p, i, n)
  {
    hide Trace;
    TraceMonotone(b, c, b.root, p);
    var v :| v in Trace(b, b.root, p) && v.node == i && v.rest != [] && v.rest[0] == n;
    assert v in Trace(c, c.root, p);
  }

  lemma GrownTransitive(a: Fs, b: Fs, c: Fs, ps: set<seq<string>>, qs: set<seq<string>>)
    requires IsGrownFrom(a, b, ps) && IsGrownFrom(b, c, qs)
    ensures IsGrownFrom(a, c, ps + qs)
  {
    hide IsOnWalk, KeepsNodes;
    KeepsTransitive(a, b, c);
    NewNodesStayPrivate(a, b, c);
    forall i, n | i in c.nodes && n in c.nodes[i].entries && !(i in a.nodes && n in a.nodes[i].entries)
      ensures IsOnSomeWalk(c, ps + qs, i, n)
    {
      if i in b.nodes && n in b.nodes[i].entries {
        var p :| p in ps && IsOnWalk(b, p, i, n);
        OnWalkMonotone(b, c, p, i, n);
        assert p in ps + qs;
      } else {
        var q :| q in qs && IsOnWalk(c, q, i, n);
        assert q in ps + qs;
      }
    }
  }

  lemma NewNodesStayPrivate(a: Fs, b: Fs, c: Fs)
    requires KeepsNodes(a, b) && KeepsNodes(b, c)
    requires forall i :: i in b.nodes && i !in a.nodes ==> IsSameDirectory(PrivateDirectory(a.uid), b.nodes[i])
    requires forall i :: i in c.nodes && i !in b.nodes ==> IsSameDirectory(PrivateDirectory(b.uid), c.nodes[i])
    ensures forall i :: i in c.nodes && i !in a.nodes ==> IsSameDirectory(PrivateDirectory(a.uid), c.nodes[i])
  {
    forall i | i in c.nodes && i !in a.nodes
      ensures IsSameDirectory(PrivateDirectory(a.uid), c.nodes[i])
    {
      if i in b.nodes {
        assert IsSameDirectory(b.nodes[i], c.nodes[i]);
      }
    }
  }
}
