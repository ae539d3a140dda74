/** The directory graph that the environment walks inspect and extend.

    Directories are nodes named by an inode, standing for a device and inode pair; entries may
    alias freely, as bind mounts make them do, and the graph may contain cycles. */
module FileSystem {

  import opened Wrappers
  import opened Paths

  type Inode = nat

  datatype Kind = Directory | Symlink | OtherFile

  /** owner and mode are what fstat reports. The three flags are what the kernel grants the user:
      looking names up in the directory, opening it, and adding entries to it. */
  datatype Node = Node(kind: Kind, owner: nat, mode: bv12, searchable: bool, readable: bool, writable: bool,
                       entries: map<string, Inode>)

  /** uid is the effective user of every process considered; next bounds the inodes in use. */
  datatype Fs = Fs(nodes: map<Inode, Node>, root: Inode, next: Inode, uid: nat)

  ghost predicate IsFs(fs: Fs) {
    && fs.root in fs.nodes
    && (forall i :: i in fs.nodes ==> i < fs.next)
    && (forall i, name :: i in fs.nodes && name in fs.nodes[i].entries ==> fs.nodes[i].entries[name] in fs.nodes)
  }

  const RWXU: bv12 := 0x1C0
  const GROUP_OTHER: bv12 := 0x3F
  const GROUP_OTHER_WRITE: bv12 := 0x12
  const STICKY: bv12 := 0x200

  /** CheckDirectory, on the status of an opened directory. */
  predicate IsSafe(node: Node, uid: nat, final: bool) {
    && node.kind.Directory?
    && (if final then node.owner == uid && node.mode & GROUP_OTHER == 0 && node.mode & RWXU == RWXU
        else
          && (node.owner == 0 || node.owner == uid)
          && (node.mode & GROUP_OTHER_WRITE == 0 || (node.owner == 0 && node.mode & STICKY != 0)))
  }

  datatype Opened = Found(inode: Inode) | Missing | Refused

  /** openat with O_DIRECTORY | O_NOFOLLOW. Refused covers ELOOP, ENOTDIR and EACCES. */
  function OpenAt(fs: Fs, at: Inode, name: string): (r: Opened)
    requires IsFs(fs) && at in fs.nodes
    ensures r.Found? ==> r.inode in fs.nodes && name in fs.nodes[at].entries
  {
    var node := fs.nodes[at];
    if !node.searchable then Refused
    else if name !in node.entries then Missing
    else
      var target := fs.nodes[node.entries[name]];
      if target.kind.Directory? && target.readable then Found(node.entries[name]) else Refused
  }

  /** The directory that mkdirat(..., 0700) makes. */
  function PrivateDirectory(uid: nat): Node {
    Node(Directory, uid, RWXU, true, true, true, map[])
  }

  /** The graph after a directory named name was made in at. */
  function Created(fs: Fs, at: Inode, name: string): (r: Fs)
    requires at in fs.nodes
  {
    var parent := fs.nodes[at];
    fs.(nodes := fs.nodes[at := parent.(entries := parent.entries[name := fs.next])][fs.next := PrivateDirectory(fs.uid)],
        next := fs.next + 1)
  }

  /** What a walk has seen at one directory: the directory, and the components still ahead. */
  datatype Visit = Visit(node: Inode, rest: seq<string>)

  /** The directories a walk passes, up to the last one that exists. */
  function Trace(fs: Fs, at: Inode, parts: seq<string>): (t: seq<Visit>)
    requires IsFs(fs) && at in fs.nodes
    ensures 1 <= |t| <= |parts| + 1 && t[0] == Visit(at, parts)
    decreases |parts|
  {
    [Visit(at, parts)] +
    if parts == [] then []
    else
      match OpenAt(fs, at, parts[0])
      case Found(n) => Trace(fs, n, parts[1..])
      case _ => []
  }

  /** Whether the walk, not creating anything, meets only safe directories and no refusal. */
  predicate IsPassable(fs: Fs, at: Inode, parts: seq<string>)
    requires IsFs(fs) && at in fs.nodes
    decreases |parts|
  {
    && IsSafe(fs.nodes[at], fs.uid, parts == [])
    && (parts != [] ==>
          match OpenAt(fs, at, parts[0])
          case Found(n) => IsPassable(fs, n, parts[1..])
          case Missing => true
          case Refused => false)
  }

  ghost predicate AreSeparate(s: seq<Visit>, t: seq<Visit>) {
    forall v, w :: v in s && w in t && v.node == w.node ==> !Overlap(v.rest, w.rest)
  }

  /** The audit's verdict: every root can be walked, and no two walks share a directory with
      overlapping remainders. */
  ghost predicate IsAudited(fs: Fs, roots: map<string, seq<string>>) {
    && IsFs(fs)
    && (forall n :: n in roots ==> fs.nodes[fs.root].readable && IsPassable(fs, fs.root, roots[n]))
    && (forall a, b :: a in roots && b in roots && a != b ==>
          AreSeparate(Trace(fs, fs.root, roots[a]), Trace(fs, fs.root, roots[b])))
  }

  /* One directory made. */

  lemma CreatedIsFs(fs: Fs, at: Inode, name: string)
    requires IsFs(fs) && at in fs.nodes
    ensures IsFs(Created(fs, at, name))
    ensures forall i :: i in fs.nodes ==> i in Created(fs, at, name).nodes
  {
  }

  /** A new entry changes no lookup but its own. */
  lemma OpenAfterCreate(fs: Fs, at: Inode, name: string, from: Inode, x: string)
    requires IsFs(fs) && at in fs.nodes && name !in fs.nodes[at].entries && from in fs.nodes
    ensures IsFs(Created(fs, at, name)) && from in Created(fs, at, name).nodes
    ensures OpenAt(Created(fs, at, name), from, x) ==
            if from == at && x == name && fs.nodes[at].searchable then Found(fs.next) else OpenAt(fs, from, x)
    ensures from == at && x == name ==> !OpenAt(fs, from, x).Found?
    ensures IsSafe(Created(fs, at, name).nodes[from], fs.uid, true) == IsSafe(fs.nodes[from], fs.uid, true)
    ensures IsSafe(Created(fs, at, name).nodes[from], fs.uid, false) == IsSafe(fs.nodes[from], fs.uid, false)
  {
    CreatedIsFs(fs, at, name);
  }

  lemma NewDirectoryIsEmpty(fs: Fs, at: Inode, name: string, rest: seq<string>)
    requires IsFs(fs) && at in fs.nodes
    ensures IsFs(Created(fs, at, name)) && fs.next in Created(fs, at, name).nodes
    ensures Trace(Created(fs, at, name), fs.next, rest) == [Visit(fs.next, rest)]
    ensures IsPassable(Created(fs, at, name), fs.next, rest)
  {
    CreatedIsFs(fs, at, name);
    var made := PrivateDirectory(fs.uid);
    assert made.mode & GROUP_OTHER == 0 && made.mode & RWXU == RWXU && made.mode & GROUP_OTHER_WRITE == 0;
  }

  function Last(t: seq<Visit>): Visit
    requires t != []
  {
    t[|t| - 1]
  }

  /** How a walk sees a new directory: not at all, or as one more step at its very end, and only
      if it used to stop where the directory was made with that very name ahead of it. */
  predicate IsSameOrOneStep(t: seq<Visit>, t': seq<Visit>, at: Inode, name: string, made: Inode)
    requires t != []
  {
    || t' == t
    || (Last(t).node == at && Last(t).rest != [] && Last(t).rest[0] == name
        && t' == t + [Visit(made, Last(t).rest[1..])])
  }

  lemma PrependVisit(v: Visit, t: seq<Visit>, t': seq<Visit>, at: Inode, name: string, made: Inode)
    requires t != [] && IsSameOrOneStep(t, t', at, name, made)
    ensures IsSameOrOneStep([v] + t, [v] + t', at, name, made)
  {
    if t' != t {
      assert [v] + t' == [v] + t + [Visit(made, Last(t).rest[1..])];
    }
  }

  lemma {:induction false} TraceAfterCreate(fs: Fs, at: Inode, name: string, from: Inode, parts: seq<string>)
    requires IsFs(fs) && at in fs.nodes && name !in fs.nodes[at].entries && from in fs.nodes
    ensures IsFs(Created(fs, at, name)) && from in Created(fs, at, name).nodes
    ensures IsSameOrOneStep(Trace(fs, from, parts), Trace(Created(fs, at, name), from, parts), at, name, fs.next)
    decreases |parts|
  {
    hide Created, IsSameOrOneStep, IsFs, OpenAt;
    OpenAfterCreate(fs, at, name, from, "");
    var fs', v := Created(fs, at, name), Visit(from, parts);
    assert [v] + [] == [v];
    if parts == [] {
      NoStep([v], at, name, fs.next);
    } else {
      OpenAfterCreate(fs, at, name, from, parts[0]);
      match OpenAt(fs, from, parts[0])
      case Found(n) =>
        TraceAfterCreate(fs, at, name, n, parts[1..]);
        PrependVisit(v, Trace(fs, n, parts[1..]), Trace(fs', n, parts[1..]), at, name, fs.next);
      case _ =>
        NewDirectoryIsEmpty(fs, at, name, parts[1..]);
        NoStep([v], at, name, fs.next);
        OneStep([v], at, name, fs.next);
    }
  }

  lemma NoStep(t: seq<Visit>, at: Inode, name: string, made: Inode)
    requires t != []
    ensures IsSameOrOneStep(t, t, at, name, made)
  {
  }

  lemma OneStep(t: seq<Visit>, at: Inode, name: string, made: Inode)
    requires t != [] && Last(t).rest != []
    ensures Last(t).node == at && Last(t).rest[0] == name ==>
              IsSameOrOneStep(t, t + [Visit(made, Last(t).rest[1..])], at, name, made)
  {
  }

  lemma {:induction false} PassableAfterCreate(fs: Fs, at: Inode, name: string, from: Inode, parts: seq<string>)
    requires IsFs(fs) && at in fs.nodes && name !in fs.nodes[at].entries && from in fs.nodes
    requires IsPassable(fs, from, parts)
    ensures IsFs(Created(fs, at, name)) && from in Created(fs, at, name).nodes
    ensures IsPassable(Created(fs, at, name), from, parts)
    decreases |parts|
  {
    CreatedIsFs(fs, at, name);
    OpenAfterCreate(fs, at, name, from, "");
    if parts != [] {
      OpenAfterCreate(fs, at, name, from, parts[0]);
      match OpenAt(fs, from, parts[0])
      case Found(n) => PassableAfterCreate(fs, at, name, n, parts[1..]);
      case _ => NewDirectoryIsEmpty(fs, at, name, parts[1..]);
    }
  }

  lemma {:induction false} TraceStaysInside(fs: Fs, at: Inode, parts: seq<string>)
    requires IsFs(fs) && at in fs.nodes
    ensures forall v :: v in Trace(fs, at, parts) ==> v.node in fs.nodes
    decreases |parts|
  {
    if parts != [] && OpenAt(fs, at, parts[0]).Found? {
      TraceStaysInside(fs, OpenAt(fs, at, parts[0]).inode, parts[1..]);
    }
  }

  /** Two walks that were separate stay separate: if both gain the new directory, their
      remainders at its parent began with the same name, and so still differ after it. */
  lemma SeparateAfterCreate(fs: Fs, at: Inode, name: string, p: seq<string>, q: seq<string>)
    requires IsFs(fs) && at in fs.nodes && name !in fs.nodes[at].entries
    requires AreSeparate(Trace(fs, fs.root, p), Trace(fs, fs.root, q))
    ensures IsFs(Created(fs, at, name))
    ensures AreSeparate(Trace(Created(fs, at, name), fs.root, p), Trace(Created(fs, at, name), fs.root, q))
  {
    hide Trace, Created;
    var s, t := Trace(fs, fs.root, p), Trace(fs, fs.root, q);
    TraceAfterCreate(fs, at, name, fs.root, p);
    TraceAfterCreate(fs, at, name, fs.root, q);
    TraceStaysInside(fs, fs.root, p);
    TraceStaysInside(fs, fs.root, q);
    CreatedRoot(fs, at, name);
    var s', t' := Trace(Created(fs, at, name), fs.root, p), Trace(Created(fs, at, name), fs.root, q);
    forall v, w | v in s' && w in t' && v.node == w.node
      ensures !Overlap(v.rest, w.rest)
    {
      if v.node == fs.next {
        assert Last(s) in s && Last(t) in t && Last(s).node == Last(t).node == at;
        assert v == Visit(fs.next, Last(s).rest[1..]) && w == Visit(fs.next, Last(t).rest[1..]);
        assert Last(s).rest == [name] + v.rest && Last(t).rest == [name] + w.rest;
        OverlapCons(name, v.rest, w.rest);
      } else {
        assert v in s && w in t;
      }
    }
  }

  lemma OverlapCons(name: string, p: seq<string>, q: seq<string>)
    ensures Overlap([name] + p, [name] + q) <==> Overlap(p, q)
  {
    assert ([name] + p)[1..] == p && ([name] + q)[1..] == q;
    assert p <= q ==> [name] + p <= [name] + q;
    assert q <= p ==> [name] + q <= [name] + p;
    assert [name] + p <= [name] + q ==> ([name] + q)[..|p| + 1][1..] == p;
    assert [name] + q <= [name] + p ==> ([name] + p)[..|q| + 1][1..] == q;
    assert |p| <= |q| ==> ([name] + q)[..|p| + 1][1..] == q[..|p|];
    assert |q| <= |p| ==> ([name] + p)[..|q| + 1][1..] == p[..|q|];
  }

  lemma CreatedRoot(fs: Fs, at: Inode, name: string)
    requires IsFs(fs) && at in fs.nodes
    ensures Created(fs, at, name).root == fs.root && Created(fs, at, name).uid == fs.uid
    ensures fs.next !in fs.nodes
    ensures Created(fs, at, name).nodes[fs.root].readable == fs.nodes[fs.root].readable
  {
  }

  /** Making any missing directory anywhere never upsets an accepted audit. */
  lemma AuditAfterCreate(fs: Fs, roots: map<string, seq<string>>, at: Inode, name: string)
    requires IsAudited(fs, roots) && at in fs.nodes && name !in fs.nodes[at].entries
    ensures IsAudited(Created(fs, at, name), roots)
  {
    hide Trace, IsPassable, Created, AreSeparate;
    CreatedIsFs(fs, at, name);
    CreatedRoot(fs, at, name);
    forall n | n in roots
      ensures Created(fs, at, name).nodes[fs.root].readable && IsPassable(Created(fs, at, name), fs.root, roots[n])
    {
      PassableAfterCreate(fs, at, name, fs.root, roots[n]);
    }
    forall a, b | a in roots && b in roots && a != b
      ensures AreSeparate(Trace(Created(fs, at, name), fs.root, roots[a]), Trace(Created(fs, at, name), fs.root, roots[b]))
    {
      SeparateAfterCreate(fs, at, name, roots[a], roots[b]);
    }
  }

  /** A root that exists is not on the walk of any other root, and so not equal to it either. */
  lemma RootIsOnNoOtherWalk(fs: Fs, roots: map<string, seq<string>>, a: string, b: string)
    requires IsAudited(fs, roots) && a in roots && b in roots && a != b
    requires Last(Trace(fs, fs.root, roots[a])).rest == []
    ensures forall w :: w in Trace(fs, fs.root, roots[b]) ==> w.node != Last(Trace(fs, fs.root, roots[a])).node
  {
    var v := Last(Trace(fs, fs.root, roots[a]));
    forall w | w in Trace(fs, fs.root, roots[b])
      ensures w.node != v.node
    {
      assert Overlap(v.rest, w.rest);
    }
  }
}
