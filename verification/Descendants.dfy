/** Collecting a process tree (mb/tools/upstream_smoke.py).

    children is what /proc lists for each live process; it does not change during the walk and need
    not be a tree. A process without an entry is one whose file cannot be found. */
module Descendants {

  predicate IsChild(children: map<int, seq<int>>, parent: int, child: int) {
    parent in children && child in children[parent]
  }

  /** A chain of child edges. */
  predicate IsChain(children: map<int, seq<int>>, chain: seq<int>) {
    forall i :: 0 <= i < |chain| - 1 ==> IsChild(children, chain[i], chain[i + 1])
  }

  /** By one or more edges. */
  ghost predicate IsDescendant(children: map<int, seq<int>>, pid: int, p: int) {
    exists chain :: 2 <= |chain| && chain[0] == pid && chain[|chain| - 1] == p && IsChain(children, chain)
  }

  /** Every process that is someone's child. */
  ghost function AllChildren(children: map<int, seq<int>>): set<int> {
    set parent, child | parent in children.Keys && child in children[parent] :: child
  }

  lemma ChildIsDescendant(children: map<int, seq<int>>, pid: int, parent: int, child: int)
    requires parent == pid || IsDescendant(children, pid, parent)
    requires IsChild(children, parent, child)
    ensures IsDescendant(children, pid, child)
  {
    if parent == pid {
      assert IsChain(children, [pid, child]);
    } else {
      var chain :| 2 <= |chain| && chain[0] == pid && chain[|chain| - 1] == parent && IsChain(children, chain);
      var longer := chain + [child];
      assert forall i :: 0 <= i < |longer| - 1 ==> i < |chain| - 1 || longer[i] == parent;
      assert IsChain(children, longer) && longer[|longer| - 1] == child;
    }
  }

  /** A set that holds the children of the root and of its own members holds every descendant. */
  lemma {:induction false} ClosedHoldsChain(children: map<int, seq<int>>, pid: int, found: seq<int>, chain: seq<int>, n: nat)
    requires forall p, c :: (p == pid || p in found) && IsChild(children, p, c) ==> c in found
    requires 0 < n < |chain| && chain[0] == pid && IsChain(children, chain)
    ensures chain[n] in found
  {
    if n > 1 {
      ClosedHoldsChain(children, pid, found, chain, n - 1);
    }
    assert IsChild(children, chain[n - 1], chain[n]);
  }

  /** What holds between two rounds: everything found is a descendant, found once, and whoever is not
      pending has had its children found. */
  ghost predicate IsWalked(children: map<int, seq<int>>, pid: int, found: seq<int>, pending: seq<int>) {
    && (forall p :: p in found ==> IsDescendant(children, pid, p))
    && (forall i, j :: 0 <= i < j < |found| ==> found[i] != found[j])
    && (forall p :: p in pending ==> p == pid || p in found)
    && (forall p, c :: (p == pid || p in found) && p !in pending && IsChild(children, p, c) ==> c in found)
  }

  /** The same while the children of parent are being read, i of them so far. */
  ghost predicate IsReading(children: map<int, seq<int>>, pid: int, found: seq<int>, pending: seq<int>, parent: int, i: nat)
    requires parent in children && i <= |children[parent]|
  {
    && (parent == pid || IsDescendant(children, pid, parent))
    && (forall p :: p in found ==> IsDescendant(children, pid, p))
    && (forall j, k :: 0 <= j < k < |found| ==> found[j] != found[k])
    && (forall p :: p in pending ==> p == pid || p in found)
    && (forall p, c :: (p == pid || p in found) && p !in pending && p != parent && IsChild(children, p, c) ==> c in found)
    && (forall j :: 0 <= j < i ==> children[parent][j] in found)
  }

  lemma ReadNext(children: map<int, seq<int>>, pid: int, found: seq<int>, pending: seq<int>, parent: int, i: nat)
    requires parent in children && i < |children[parent]| && IsReading(children, pid, found, pending, parent, i)
    ensures var child := children[parent][i];
            if child in found then IsReading(children, pid, found, pending, parent, i + 1)
            else IsReading(children, pid, found + [child], pending + [child], parent, i + 1)
  {
    var child := children[parent][i];
    ChildIsDescendant(children, pid, parent, child);
    hide IsDescendant;
  }

  lemma Reread(children: map<int, seq<int>>, pid: int, found: seq<int>, pending: seq<int>, parent: int)
    requires parent in children && IsReading(children, pid, found, pending, parent, |children[parent]|)
    ensures IsWalked(children, pid, found, pending)
  {
    hide IsDescendant;
    assert forall c :: IsChild(children, parent, c) ==> c in found;
  }

  lemma Popped(children: map<int, seq<int>>, pid: int, found: seq<int>, pending: seq<int>)
    requires IsWalked(children, pid, found, pending) && pending != []
    ensures var parent, rest := pending[|pending| - 1], pending[..|pending| - 1];
            if parent in children then IsReading(children, pid, found, rest, parent, 0) else IsWalked(children, pid, found, rest)
  {
    hide IsDescendant;
    var parent, rest := pending[|pending| - 1], pending[..|pending| - 1];
    assert pending == rest + [parent];
  }

  /** descendants. It ends on every finite relation, cyclic ones included. */
  method Descendants(children: map<int, seq<int>>, pid: int) returns (found: seq<int>)
    ensures forall p :: p in found <==> IsDescendant(children, pid, p)
    ensures forall i, j :: 0 <= i < j < |found| ==> found[i] != found[j]
  {
    found := [];
    var pending := [pid];
    hide IsDescendant, IsReading;
    while pending != []
      invariant IsWalked(children, pid, found, pending)
      decreases AllChildren(children) - (set p | p in found), |pending|
    {
      var parent := pending[|pending| - 1];
      Popped(children, pid, found, pending);
      pending := pending[..|pending| - 1];
      if parent !in children { continue; }
      ghost var before, rest := found, pending;
      var list := children[parent];
      for i := 0 to |list|
        invariant IsReading(children, pid, found, pending, parent, i)
        invariant before <= found && (found == before ==> pending == rest)
        invariant found != before ==>
                    AllChildren(children) - (set p | p in found) < AllChildren(children) - (set p | p in before)
      {
        var child := list[i];
        ReadNext(children, pid, found, pending, parent, i);
        if child !in found {
          Grows(children, before, found, parent, child);
          found := found + [child];
          pending := pending + [child];
        }
      }
      Reread(children, pid, found, pending, parent);
    }
    Complete(children, pid, found);
  }

  lemma Grows(children: map<int, seq<int>>, before: seq<int>, found: seq<int>, parent: int, child: int)
    requires before <= found && child !in found && IsChild(children, parent, child)
    ensures AllChildren(children) - (set p | p in found + [child]) < AllChildren(children) - (set p | p in before)
  {
    assert child in AllChildren(children);
    assert forall p :: p in before ==> p in found;
    assert child in AllChildren(children) - (set p | p in before);
  }

  lemma Complete(children: map<int, seq<int>>, pid: int, found: seq<int>)
    requires IsWalked(children, pid, found, [])
    ensures forall p :: p in found <==> IsDescendant(children, pid, p)
  {
    forall p | IsDescendant(children, pid, p)
      ensures p in found
    {
      var chain :| 2 <= |chain| && chain[0] == pid && chain[|chain| - 1] == p && IsChain(children, chain);
      ClosedHoldsChain(children, pid, found, chain, |chain| - 1);
    }
  }
}
