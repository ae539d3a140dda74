/** What the check of each directory is for: which users the permission bits let in.

    A user who is neither root nor the effective user can do something to a directory only through the
    bits of its group or of the others, or as its owner. POSIX.1-2017 calls these the file access
    permissions and the restricted deletion flag (section 4.5 and the sticky bit of rename and unlink). */
module Permissions {

  import opened Wrappers
  import opened Paths
  import opened FileSystem
  import opened EnvironmentRoots

  /** The three bits that apply to a user: the owner's, the group's or the others'. */
  function Triple(node: Node, user: nat, inGroup: bool): bv12 {
    if user == node.owner then (node.mode >> 6) & 7 else if inGroup then (node.mode >> 3) & 7 else node.mode & 7
  }

  predicate Reads(node: Node, user: nat, inGroup: bool) {
    Triple(node, user, inGroup) & 4 != 0
  }

  predicate Writes(node: Node, user: nat, inGroup: bool) {
    Triple(node, user, inGroup) & 2 != 0
  }

  predicate Searches(node: Node, user: nat, inGroup: bool) {
    Triple(node, user, inGroup) & 1 != 0
  }

  predicate IsSticky(node: Node) {
    (node.mode >> 9) & 1 != 0
  }

  predicate CanChangeMode(node: Node, user: nat) {
    user == node.owner
  }

  predicate CanAdd(node: Node, user: nat, inGroup: bool) {
    Writes(node, user, inGroup) && Searches(node, user, inGroup)
  }

  /** Renaming or removing an entry: under a sticky directory only the owner of the entry or of the
      directory may. */
  predicate CanRemove(fs: Fs, at: Inode, name: string, user: nat, inGroup: bool)
    requires IsFs(fs) && at in fs.nodes && name in fs.nodes[at].entries
  {
    var dir, entry := fs.nodes[at], fs.nodes[fs.nodes[at].entries[name]];
    CanAdd(dir, user, inGroup) && (IsSticky(dir) ==> user == dir.owner || user == entry.owner)
  }

  /** Someone other than root and the effective user. */
  predicate IsOther(user: nat, uid: nat) {
    user != 0 && user != uid
  }

  /** The user may make the directory lead elsewhere: as its owner, or by writing to it, unless it is a
      sticky directory of root. */
  predicate MayDivert(node: Node, user: nat, inGroup: bool) {
    CanChangeMode(node, user) || (Writes(node, user, inGroup) && !(node.owner == 0 && IsSticky(node)))
  }

  predicate HasAccess(node: Node, user: nat, inGroup: bool) {
    Reads(node, user, inGroup) || Writes(node, user, inGroup) || Searches(node, user, inGroup)
  }

  predicate HasFullAccess(node: Node, user: nat) {
    Reads(node, user, false) && Writes(node, user, false) && Searches(node, user, false)
  }

  /** Nobody but root and the effective user may make the directory lead elsewhere. */
  ghost predicate IsGuarded(node: Node, uid: nat) {
    node.kind.Directory? && forall user, inGroup :: IsOther(user, uid) ==> !MayDivert(node, user, inGroup)
  }

  /** The effective user owns the directory and may do everything in it, and its bits let nobody else in. */
  ghost predicate IsOwn(node: Node, uid: nat) {
    && node.kind.Directory? && node.owner == uid && HasFullAccess(node, uid)
    && forall user, inGroup :: user != uid ==> !HasAccess(node, user, inGroup)
  }

  lemma ModeBits(m: bv12)
    ensures m & GROUP_OTHER_WRITE == 0 <==> ((m >> 3) & 7) & 2 == 0 && (m & 7) & 2 == 0
    ensures m & GROUP_OTHER == 0 <==> (m >> 3) & 7 == 0 && m & 7 == 0
    ensures m & STICKY != 0 <==> (m >> 9) & 1 != 0
    ensures m & RWXU == RWXU <==> (m >> 6) & 7 == 7
  {
  }

  lemma TripleBits(m: bv12)
    ensures m & 7 == 0 <==> (m & 7) & 4 == 0 && (m & 7) & 2 == 0 && (m & 7) & 1 == 0
    ensures m & 7 == 7 <==> (m & 7) & 4 != 0 && (m & 7) & 2 != 0 && (m & 7) & 1 != 0
  {
  }

  /** The check that an ancestor passes says exactly that it is guarded. */
  lemma AncestorIsGuarded(node: Node, uid: nat)
    ensures IsSafe(node, uid, false) <==> IsGuarded(node, uid)
  {
    ModeBits(node.mode);
    var other := if node.owner == uid + 1 then uid + 2 else uid + 1;
    if IsGuarded(node, uid) {
      assert !IsOther(node.owner, uid) by { assert !MayDivert(node, node.owner, true) || !IsOther(node.owner, uid); }
      assert IsOther(other, uid) && !MayDivert(node, other, true) && !MayDivert(node, other, false);
    }
  }

  /** The check that a root passes says exactly that it is the effective user's own. */
  lemma RootIsOwn(node: Node, uid: nat)
    ensures IsSafe(node, uid, true) <==> IsOwn(node, uid)
  {
    ModeBits(node.mode);
    TripleBits(node.mode >> 6);
    TripleBits(node.mode >> 3);
    TripleBits(node.mode);
    if IsOwn(node, uid) {
      assert !HasAccess(node, uid + 1, true) && !HasAccess(node, uid + 1, false);
    }
  }

  /* Along whole walks. */

  /** A walk met guarded directories only; if it reached the root, that is the user's own; if it did
      not, nothing but a missing entry stopped it. */
  ghost predicate IsShielded(fs: Fs, t: seq<Visit>)
    requires IsFs(fs) && t != [] && forall v :: v in t ==> v.node in fs.nodes
  {
    && (forall v :: v in t ==> if v.rest == [] then IsOwn(fs.nodes[v.node], fs.uid) else IsGuarded(fs.nodes[v.node], fs.uid))
    && (Last(t).rest != [] ==>
          fs.nodes[Last(t).node].searchable && Last(t).rest[0] !in fs.nodes[Last(t).node].entries)
  }

  lemma {:induction false} PassableExactly(fs: Fs, at: Inode, parts: seq<string>)
    requires IsFs(fs) && at in fs.nodes
    ensures forall v :: v in Trace(fs, at, parts) ==> v.node in fs.nodes
    ensures IsPassable(fs, at, parts) <==> IsShielded(fs, Trace(fs, at, parts))
    decreases |parts|
  {
    hide IsSafe, IsGuarded, IsOwn;
    AncestorIsGuarded(fs.nodes[at], fs.uid);
    RootIsOwn(fs.nodes[at], fs.uid);
    var t := Trace(fs, at, parts);
    if parts != [] && OpenAt(fs, at, parts[0]).Found? {
      var n := OpenAt(fs, at, parts[0]).inode;
      var rest := Trace(fs, n, parts[1..]);
      PassableExactly(fs, n, parts[1..]);
      assert t == [Visit(at, parts)] + rest;
      assert forall v :: v in t <==> v == Visit(at, parts) || v in rest;
      assert Last(t) == Last(rest);
    } else {
      assert t == [Visit(at, parts)];
    }
  }

  /** The directories that a chain of entries leads through, from at along parts: each is looked up in the
      one before, and the chain ends where the parts do or where the next one cannot be opened. */
  ghost predicate IsWalk(fs: Fs, t: seq<Visit>, at: Inode, parts: seq<string>)
    requires IsFs(fs)
  {
    && t != [] && t[0] == Visit(at, parts) && (forall v :: v in t ==> v.node in fs.nodes)
    && (forall k :: 0 <= k < |t| - 1 ==> IsLinkAt(fs, t, k))
    && (forall w: Visit :: w.node in fs.nodes ==> !IsLink(fs, t[|t| - 1], w))
  }

  /** From v the next part leads to w: the user may look it up, and it is a directory that the user may open. */
  predicate IsLink(fs: Fs, v: Visit, w: Visit)
    requires v.node in fs.nodes && w.node in fs.nodes
  {
    && v.rest != [] && w.rest == v.rest[1..] && fs.nodes[v.node].searchable
    && v.rest[0] in fs.nodes[v.node].entries && fs.nodes[v.node].entries[v.rest[0]] == w.node
    && fs.nodes[w.node].kind.Directory? && fs.nodes[w.node].readable
  }

  predicate IsLinkAt(fs: Fs, t: seq<Visit>, k: nat)
    requires k + 1 < |t|
  {
    t[k].node in fs.nodes && t[k + 1].node in fs.nodes && IsLink(fs, t[k], t[k + 1])
  }

  /** The walk recorded is the only chain of that kind. */
  lemma {:induction false} TraceExactly(fs: Fs, t: seq<Visit>, at: Inode, parts: seq<string>)
    requires IsFs(fs) && at in fs.nodes
    ensures t == Trace(fs, at, parts) <==> IsWalk(fs, t, at, parts)
    decreases |parts|
  {
    var u := Trace(fs, at, parts);
    if parts != [] && OpenAt(fs, at, parts[0]).Found? {
      var n := OpenAt(fs, at, parts[0]).inode;
      var rest := Trace(fs, n, parts[1..]);
      assert u == [Visit(at, parts)] + rest;
      if t != [] {
        TraceExactly(fs, t[1..], n, parts[1..]);
        WalkNext(fs, t, at, parts, n);
        assert t == u <==> t[0] == Visit(at, parts) && t[1..] == rest;
      }
    } else {
      assert u == [Visit(at, parts)];
      assert forall w: Visit :: w.node in fs.nodes ==> !IsLink(fs, Visit(at, parts), w);
      assert |t| > 1 && IsWalk(fs, t, at, parts) ==> IsLinkAt(fs, t, 0);
    }
  }

  lemma WalkNext(fs: Fs, t: seq<Visit>, at: Inode, parts: seq<string>, n: Inode)
    requires IsFs(fs) && at in fs.nodes && n in fs.nodes && t != [] && parts != []
    requires IsLink(fs, Visit(at, parts), Visit(n, parts[1..]))
    ensures IsWalk(fs, t, at, parts) <==> t[0] == Visit(at, parts) && IsWalk(fs, t[1..], n, parts[1..])
  {
    hide IsFs, IsLink;
    var rest := t[1..];
    if t[0] == Visit(at, parts) && IsWalk(fs, rest, n, parts[1..]) {
      forall k | 0 <= k < |t| - 1
        ensures IsLinkAt(fs, t, k)
      {
        if k > 0 { assert IsLinkAt(fs, rest, k - 1); }
      }
      assert forall v :: v in t ==> v == t[0] || v in rest;
      assert t[|t| - 1] == rest[|rest| - 1];
    }
    if IsWalk(fs, t, at, parts) {
      if rest != [] {
        assert IsLinkAt(fs, t, 0);
        LinkIsUnique(fs, t[0], t[1], Visit(n, parts[1..]));
        assert forall v :: v in rest ==> v in t;
        forall k | 0 <= k < |rest| - 1
          ensures IsLinkAt(fs, rest, k)
        {
          assert IsLinkAt(fs, t, k + 1);
        }
        assert t[|t| - 1] == rest[|rest| - 1];
      }
    }
  }

  lemma LinkIsUnique(fs: Fs, v: Visit, w: Visit, x: Visit)
    requires v.node in fs.nodes && w.node in fs.nodes && x.node in fs.nodes && IsLink(fs, v, w) && IsLink(fs, v, x)
    ensures w == x
  {
  }

  /** What a creating walk means, on any graph: it succeeds exactly if everything that is there is shielded and
      the last of it can be added to, and then holds a directory of the user's own. */
  lemma CreatingWalkExactly(fs: Fs, at: Inode, parts: seq<string>)
    requires IsFs(fs) && at in fs.nodes
    ensures forall v :: v in Trace(fs, at, parts) ==> v.node in fs.nodes
    ensures var t := Trace(fs, at, parts);
            var r := MakePath(fs, at, parts).1;
            && (r.Ok? <==> IsShielded(fs, t) && (Last(t).rest == [] || fs.nodes[Last(t).node].writable))
            && (r.Err? ==> r.error == if IsShielded(fs, t) then SystemError else UnsafeFilesystem)
            && (r.Ok? && Last(t).rest == [] ==> r.value == Last(t).node && IsOwn(fs.nodes[r.value], fs.uid))
  {
    hide Trace, MakePath, IsOwn, IsGuarded;
    PassableExactly(fs, at, parts);
    MakePathExactly(fs, at, parts);
    assert Last(Trace(fs, at, parts)) in Trace(fs, at, parts);
  }

  /** Below some directory of both walks, the first leads to or through where the second goes. */
  ghost predicate Crosses(t: seq<Visit>, u: seq<Visit>) {
    exists v, w :: v in t && w in u && v.node == w.node && v.rest <= w.rest
  }

  lemma SeparateBothWays(t: seq<Visit>, u: seq<Visit>)
    ensures AreSeparate(t, u) <==> !Crosses(t, u) && !Crosses(u, t)
  {
  }

  /** What an accepted audit means: every walk is shielded, and no two of them cross. */
  lemma AuditedExactly(fs: Fs, roots: map<string, seq<string>>)
    requires IsFs(fs)
    ensures forall n :: n in roots ==> forall v :: v in Trace(fs, fs.root, roots[n]) ==> v.node in fs.nodes
    ensures IsAudited(fs, roots) <==>
            && (forall n :: n in roots ==> fs.nodes[fs.root].readable && IsShielded(fs, Trace(fs, fs.root, roots[n])))
            && (forall a, b :: a in roots && b in roots && a != b ==>
                  !Crosses(Trace(fs, fs.root, roots[a]), Trace(fs, fs.root, roots[b])))
  {
    hide Trace, IsPassable, IsShielded, Crosses, AreSeparate;
    forall n | n in roots
      ensures forall v :: v in Trace(fs, fs.root, roots[n]) ==> v.node in fs.nodes
      ensures IsPassable(fs, fs.root, roots[n]) <==> IsShielded(fs, Trace(fs, fs.root, roots[n]))
    {
      PassableExactly(fs, fs.root, roots[n]);
    }
    forall a, b | a in roots && b in roots
      ensures var t, u := Trace(fs, fs.root, roots[a]), Trace(fs, fs.root, roots[b]);
              AreSeparate(t, u) <==> !Crosses(t, u) && !Crosses(u, t)
    {
      SeparateBothWays(Trace(fs, fs.root, roots[a]), Trace(fs, fs.root, roots[b]));
    }
  }

  /** After an accepted audit nobody but root and the effective user can use a root that exists, or rename
      or remove what leads to one; nor add anything on the way, except under a sticky directory of root. */
  lemma NobodyElse(fs: Fs, roots: map<string, seq<string>>, n: string, v: Visit, user: nat, inGroup: bool)
    requires IsAudited(fs, roots) && n in roots && v in Trace(fs, fs.root, roots[n]) && IsOther(user, fs.uid)
    ensures v.node in fs.nodes
    ensures var dir := fs.nodes[v.node];
            && !CanChangeMode(dir, user)
            && (v.rest == [] ==> !HasAccess(dir, user, inGroup))
            && (CanAdd(dir, user, inGroup) ==> v.rest != [] && dir.owner == 0 && IsSticky(dir))
            && (v.rest != [] && v.rest[0] in dir.entries ==> !CanRemove(fs, v.node, v.rest[0], user, inGroup))
  {
    hide Trace, IsPassable, AreSeparate;
    AuditedExactly(fs, roots);
    var dir := fs.nodes[v.node];
    if v.rest == [] {
      assert IsOwn(dir, fs.uid) && !HasAccess(dir, user, inGroup);
    } else {
      assert IsGuarded(dir, fs.uid) && !MayDivert(dir, user, inGroup);
      if v.rest[0] in dir.entries {
        var w := NextOf(fs, fs.root, roots[n], v);
        var next := fs.nodes[w.node];
        assert IsGuarded(next, fs.uid) || IsOwn(next, fs.uid);
        assert !CanChangeMode(next, user) by {
          if IsGuarded(next, fs.uid) { assert !MayDivert(next, user, inGroup); }
        }
      }
    }
  }

  /** An entry ahead of a passable walk that exists is the walk's next directory. */
  lemma {:induction false} NextOf(fs: Fs, at: Inode, parts: seq<string>, v: Visit) returns (w: Visit)
    requires IsFs(fs) && at in fs.nodes && IsPassable(fs, at, parts) && v in Trace(fs, at, parts)
    requires v.node in fs.nodes && v.rest != [] && v.rest[0] in fs.nodes[v.node].entries
    ensures w in Trace(fs, at, parts) && w.node in fs.nodes && w.node == fs.nodes[v.node].entries[v.rest[0]]
    decreases |parts|
  {
    hide IsSafe;
    var n := OpenAt(fs, at, parts[0]).inode;
    if v == Visit(at, parts) {
      w := Visit(n, parts[1..]);
      assert w in Trace(fs, n, parts[1..]);
    } else {
      w := NextOf(fs, n, parts[1..], v);
    }
  }
}
