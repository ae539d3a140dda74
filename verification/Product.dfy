/** Staging the product overlay into a Chromium checkout (mb/tools/product.py).

    A checkout maps file names to what is there. SHA-256 is taken to be injective. Replacing one
    file and moving one file are single steps; the tool may be interrupted between any two. */
module Product {

  import opened Maps
  import opened Wrappers

  type Name = string

  type Bytes = string

  /** A file, or anything that regular_destination refuses: a symbolic link or a directory. */
  datatype Entry = Regular(data: Bytes) | Irregular

  type Tree = map<Name, Entry>

  datatype Digest = Sha(data: Bytes)

  /** files and sourceFiles as recorded; identity stands for the product manifest and the
      dependency revisions, which are compared for equality only. */
  datatype Receipt = Receipt(commit: string, identity: int, files: map<Name, Digest>, sourceFiles: set<Name>)

  /** The parts of a relative name between slashes, empty ones included. */
  function Parts(name: string): seq<string>
    ensures |Parts(name)| > 0
  {
    if name == "" then [""]
    else
      var rest := Parts(name[1..]);
      if name[0] == '/' then [""] + rest else [[name[0]] + rest[0]] + rest[1..]
  }

  /** safe_relative. An absolute name has an empty first part. */
  predicate IsSafeRelative(name: Name) {
    name != "" && '\\' !in name && forall p :: p in Parts(name) ==> p !in {"", ".", ".."}
  }

  /** What a run is about: the pinned tree, which files git is told to ignore, and what the build of
      the payload produced. original holds the pinned bytes of the patched files. */
  datatype Job = Job(head: map<Name, Bytes>, ignored: set<Name>, payload: map<Name, Bytes>, original: map<Name, Bytes>,
                     sources: map<Name, Bytes>)

  /** patch_payload reads the patched files from HEAD and edits existing ones only. */
  ghost predicate IsJob(job: Job) {
    && (forall n :: n in job.original ==> n in job.head && job.head[n] == job.original[n])
    && job.original.Keys <= job.payload.Keys
    && job.sources.Keys <= job.payload.Keys
  }

  /** git diff --name-only HEAD and git ls-files --others --exclude-standard. */
  ghost predicate IsDirty(job: Job, tree: Tree, n: Name) {
    || (n in job.head && !(n in tree && tree[n] == Regular(job.head[n])))
    || (n in tree && n !in job.head && n !in job.ignored)
  }

  /* What one name may hold. */

  ghost predicate IsAcceptable(tree: Tree, payload: map<Name, Bytes>, original: map<Name, Bytes>, previous: map<Name, Digest>,
                               n: Name)
  {
    && IsSafeRelative(n)
    && if n in tree
       then
         && tree[n].Regular?
         && (|| (n in previous && previous[n] == Sha(tree[n].data))
             || (n in payload && payload[n] == tree[n].data)
             || (n in original && original[n] == tree[n].data))
       else n !in original
  }

  /** check_changes: nothing outside the given names is dirty, and every given name holds known
      bytes. */
  ghost predicate IsClear(job: Job, tree: Tree, payload: map<Name, Bytes>, original: map<Name, Bytes>,
                          previous: map<Name, Digest>)
  {
    && (forall n :: IsDirty(job, tree, n) ==> n in payload.Keys + previous.Keys)
    && (forall n :: n in payload.Keys + previous.Keys ==> IsAcceptable(tree, payload, original, previous, n))
  }

  /* retired_payload. */

  /** Receipted names that the payload no longer has. */
  function Retired(job: Job, previous: map<Name, Digest>): set<Name> {
    previous.Keys - job.payload.Keys
  }

  /** Those that Chromium tracks, with their pinned bytes. */
  function Restores(job: Job, previous: map<Name, Digest>): map<Name, Bytes> {
    map n | n in Retired(job, previous) && n in job.head :: job.head[n]
  }

  /** Those that it does not track: the tool's own outputs. */
  function Outputs(job: Job, previous: map<Name, Digest>): set<Name> {
    Retired(job, previous) - job.head.Keys
  }

  function Target(job: Job, previous: map<Name, Digest>): map<Name, Bytes> {
    job.payload + Restores(job, previous)
  }

  /** The guard of prepare. */
  ghost predicate IsReady(job: Job, tree: Tree, previous: map<Name, Digest>) {
    && (forall n :: n in Retired(job, previous) ==> IsSafeRelative(n))
    && IsClear(job, tree, Target(job, previous), job.original + Restores(job, previous), previous)
  }

  /** The tree that prepare leaves. */
  function Final(job: Job, tree: Tree, previous: map<Name, Digest>): Tree {
    map n | n in (tree.Keys - Outputs(job, previous)) + Target(job, previous).Keys ::
      if n in Target(job, previous) then Regular(Target(job, previous)[n]) else tree[n]
  }

  /** tree' is what an interrupted prepare may leave: every name holds what it held, or its target,
      or, for a retired output, nothing. */
  ghost predicate IsBetween(job: Job, tree: Tree, tree': Tree, previous: map<Name, Digest>) {
    forall n ::
      || IsKept(tree, tree', n)
      || (n in Target(job, previous) && n in tree' && tree'[n] == Regular(Target(job, previous)[n]))
      || (n in Outputs(job, previous) && n !in tree')
  }

  /** Some of the named files have been moved away, all of them if finished. */
  ghost predicate IsMoved(tree: Tree, tree': Tree, names: set<Name>, finished: bool) {
    forall n :: if n in names then n !in tree' || (!finished && IsKept(tree, tree', n)) else IsKept(tree, tree', n)
  }

  /** Some of the payload has been written, all of it if finished. */
  ghost predicate IsWritten(tree: Tree, tree': Tree, payload: map<Name, Bytes>, finished: bool) {
    forall n ::
      if n in payload then (n in tree' && tree'[n] == Regular(payload[n])) || (!finished && IsKept(tree, tree', n))
      else IsKept(tree, tree', n)
  }

  /* Theorems about the protocol. */

  lemma TargetNames(job: Job, previous: map<Name, Digest>)
    requires IsJob(job)
    ensures forall n :: n in Outputs(job, previous) ==>
              n in previous && n !in job.head && n !in Target(job, previous) && n !in job.original + Restores(job, previous)
    ensures forall n :: n in Restores(job, previous) ==> n in previous && n !in job.payload && n in job.head
    ensures forall n :: n in Target(job, previous) && n !in job.payload ==> n in Restores(job, previous)
    ensures forall n :: n in previous ==> n in Target(job, previous) || n in Outputs(job, previous)
  {
  }

  /** Rerunning after an interruption passes the same guard and reaches the same tree. */
  lemma RerunReachesTheSame(job: Job, tree: Tree, tree': Tree, previous: map<Name, Digest>)
    requires IsJob(job) && IsReady(job, tree, previous) && IsBetween(job, tree, tree', previous)
    ensures IsReady(job, tree', previous)
    ensures Final(job, tree', previous) == Final(job, tree, previous)
  {
    hide IsSafeRelative, Retired, Target, Restores, Outputs;
    TargetNames(job, previous);
    var target, original := Target(job, previous), job.original + Restores(job, previous);
    forall n | IsDirty(job, tree', n)
      ensures n in target || n in previous
    {
      assert !IsDirty(job, tree, n) ==> n in target || n in Outputs(job, previous);
    }
    forall n | n in target || n in previous
      ensures IsAcceptable(tree', target, original, previous, n)
    {
      assert IsAcceptable(tree, target, original, previous, n);
    }
    SameFinal(job, tree, tree', previous);
  }

  lemma SameFinal(job: Job, tree: Tree, tree': Tree, previous: map<Name, Digest>)
    requires IsBetween(job, tree, tree', previous)
    ensures Final(job, tree', previous) == Final(job, tree, previous)
  {
    hide Target, Outputs;
    var f, f' := Final(job, tree, previous), Final(job, tree', previous);
    forall n
      ensures n in f <==> n in f'
      ensures n in f ==> f[n] == f'[n]
    {
    }
  }

  /** Moving and then writing, each as far as it got, seen at one name. */
  lemma MovedAt(tree: Tree, moved: Tree, tree': Tree, outputs: set<Name>, target: map<Name, Bytes>, all: bool, finished: bool,
                n: Name)
    requires outputs !! target.Keys
    requires IsMoved(tree, moved, outputs, all)
    requires IsWritten(moved, tree', target, finished) || (!finished && moved == tree')
    ensures n in target && IsKept(moved, tree', n) ==> IsKept(tree, tree', n)
    ensures n in target && !IsKept(moved, tree', n) ==> n in tree' && tree'[n] == Regular(target[n])
    ensures n in target && finished ==> n in tree' && tree'[n] == Regular(target[n])
    ensures n in outputs ==> n !in tree' || IsKept(tree, tree', n)
    ensures n in outputs && all ==> n !in tree'
    ensures n in outputs && n in tree && n !in tree' ==> n !in moved
    ensures n !in target && n !in outputs ==> IsKept(tree, tree', n)
  {
  }

  lemma MovedIsBetween(job: Job, tree: Tree, moved: Tree, tree': Tree, previous: map<Name, Digest>, all: bool, finished: bool)
    requires IsJob(job)
    requires IsMoved(tree, moved, Outputs(job, previous), all)
    requires IsWritten(moved, tree', Target(job, previous), finished) || (!finished && moved == tree')
    ensures IsBetween(job, tree, tree', previous)
    ensures all && finished ==> tree' == Final(job, tree, previous)
    ensures forall n :: n in Outputs(job, previous) && n in tree && n !in tree' ==> n !in moved
  {
    TargetNames(job, previous);
    hide IsJob, Outputs, Target, IsMoved, IsWritten;
    forall n
      ensures
        || IsKept(tree, tree', n)
        || (n in Target(job, previous) && n in tree' && tree'[n] == Regular(Target(job, previous)[n]))
        || (n in Outputs(job, previous) && n !in tree')
    {
      MovedAt(tree, moved, tree', Outputs(job, previous), Target(job, previous), all, finished, n);
    }
    forall n | n in Outputs(job, previous) && n in tree && n !in tree'
      ensures n !in moved
    {
      MovedAt(tree, moved, tree', Outputs(job, previous), Target(job, previous), all, finished, n);
    }
    if all && finished {
      MovedIsFinal(job, tree, moved, tree', previous);
    }
  }

  lemma MovedIsFinal(job: Job, tree: Tree, moved: Tree, tree': Tree, previous: map<Name, Digest>)
    requires Outputs(job, previous) !! Target(job, previous).Keys
    requires IsMoved(tree, moved, Outputs(job, previous), true)
    requires IsWritten(moved, tree', Target(job, previous), true)
    ensures tree' == Final(job, tree, previous)
  {
    var end := Final(job, tree, previous);
    hide Outputs, Target, IsMoved, IsWritten;
    forall n
      ensures n in tree' <==> n in end
      ensures n in tree' ==> tree'[n] == end[n]
    {
      MovedAt(tree, moved, tree', Outputs(job, previous), Target(job, previous), true, true, n);
    }
  }

  /** The receipt's digests for a payload. */
  function Digests(payload: map<Name, Bytes>): map<Name, Digest> {
    map n | n in payload :: Sha(payload[n])
  }

  /** The guard, name by name: nothing is dirty but what the payload or the receipt names, and each of
      those is safe and is absent, which it must not be where Chromium has a file that is patched or given
      back, or holds receipted, staged or pinned bytes. */
  lemma ReadyExactly(job: Job, tree: Tree, previous: map<Name, Digest>)
    requires IsJob(job)
    ensures IsReady(job, tree, previous) <==>
            forall n ::
              if n in job.payload || n in previous
              then
                var givenBack := n !in job.payload && n in job.head;
                && IsSafeRelative(n)
                && if n !in tree then n !in job.original && !givenBack
                   else
                     && tree[n].Regular?
                     && (|| (n in previous && previous[n] == Sha(tree[n].data))
                         || (n in job.payload && job.payload[n] == tree[n].data)
                         || (n in job.original && job.original[n] == tree[n].data)
                         || (givenBack && job.head[n] == tree[n].data))
              else if n in job.head then n in tree && tree[n] == Regular(job.head[n])
              else n in tree ==> n in job.ignored
  {
    hide IsSafeRelative;
    ReadyNames(job, tree, previous);
    TargetNames(job, previous);
    hide IsReady;
    forall n
      ensures n in job.payload || n in previous ==>
                (IsAcceptable(tree, Target(job, previous), job.original + Restores(job, previous), previous, n) <==>
                 var givenBack := n !in job.payload && n in job.head;
                 && IsSafeRelative(n)
                 && if n !in tree then n !in job.original && !givenBack
                    else
                      && tree[n].Regular?
                      && (|| (n in previous && previous[n] == Sha(tree[n].data))
                          || (n in job.payload && job.payload[n] == tree[n].data)
                          || (n in job.original && job.original[n] == tree[n].data)
                          || (givenBack && job.head[n] == tree[n].data)))
    {
    }
    hide IsAcceptable, Target, Restores;
  }

  lemma ReadyNames(job: Job, tree: Tree, previous: map<Name, Digest>)
    ensures IsReady(job, tree, previous) <==>
            && (forall n :: n !in job.payload && n !in previous ==> !IsDirty(job, tree, n))
            && (forall n :: n in job.payload || n in previous ==>
                  IsAcceptable(tree, Target(job, previous), job.original + Restores(job, previous), previous, n))
  {
    hide IsDirty, IsSafeRelative;
    var names := Target(job, previous).Keys + previous.Keys;
    assert forall n :: n in names <==> n in job.payload || n in previous;
  }

  /** What prepare leaves under each name. */
  lemma FinalAt(job: Job, tree: Tree, previous: map<Name, Digest>, n: Name)
    ensures var tree' := Final(job, tree, previous);
            if n in job.payload then n in tree' && tree'[n] == Regular(job.payload[n])
            else if n !in previous then IsKept(tree, tree', n)
            else if n in job.head then n in tree' && tree'[n] == Regular(job.head[n])
            else n !in tree'
  {
  }

  /** After prepare nothing but receipted files is dirty, and each holds the receipted bytes. */
  lemma FinalIsClear(job: Job, tree: Tree, previous: map<Name, Digest>)
    requires IsJob(job) && IsReady(job, tree, previous)
    ensures var tree' := Final(job, tree, previous);
            && (forall n :: n in job.payload ==> n in tree' && tree'[n] == Regular(job.payload[n]))
            && IsClear(job, tree', map[], map[], Digests(job.payload))
  {
    hide IsSafeRelative, Retired, Outputs;
    TargetNames(job, previous);
    var tree' := Final(job, tree, previous);
    var target := Target(job, previous);
    forall n | n in job.payload
      ensures n in target && target[n] == job.payload[n] && IsSafeRelative(n)
    {
      assert IsAcceptable(tree, target, job.original + Restores(job, previous), previous, n);
    }
    forall n | IsDirty(job, tree', n)
      ensures n in Digests(job.payload)
    {
      assert n !in target && n !in Outputs(job, previous) ==> IsDirty(job, tree, n);
    }
  }

  lemma FinalEverywhere(job: Job, tree: Tree, previous: map<Name, Digest>)
    ensures var tree' := Final(job, tree, previous);
            forall n ::
              if n in job.payload then n in tree' && tree'[n] == Regular(job.payload[n])
              else if n !in previous then IsKept(tree, tree', n)
              else if n in job.head then n in tree' && tree'[n] == Regular(job.head[n])
              else n !in tree'
  {
    var tree' := Final(job, tree, previous);
    hide Final;
    forall n
      ensures if n in job.payload then n in tree' && tree'[n] == Regular(job.payload[n])
              else if n !in previous then IsKept(tree, tree', n)
              else if n in job.head then n in tree' && tree'[n] == Regular(job.head[n])
              else n !in tree'
    {
      FinalAt(job, tree, previous, n);
    }
  }

  /** Preparing again with the receipt just written passes the guard and changes nothing. */
  lemma RepeatChangesNothing(job: Job, tree: Tree, previous: map<Name, Digest>)
    requires IsJob(job) && IsReady(job, tree, previous)
    ensures var tree' := Final(job, tree, previous);
            && IsReady(job, tree', Digests(job.payload))
            && Final(job, tree', Digests(job.payload)) == tree'
            && Outputs(job, Digests(job.payload)) == {} && Restores(job, Digests(job.payload)) == map[]
  {
    FinalIsClear(job, tree, previous);
    NothingRetired(job);
    var tree', receipt := Final(job, tree, previous), Digests(job.payload);
    hide Final, Digests, Target, Outputs, Retired, Restores, IsSafeRelative;
    forall n | n in job.payload
      ensures IsAcceptable(tree', job.payload, job.original + Restores(job, receipt), receipt, n)
    {
      assert IsAcceptable(tree', map[], map[], receipt, n);
    }
    SettledIsFinal(job, tree', receipt);
  }

  /** A receipt of the same payload retires no file. */
  lemma NothingRetired(job: Job)
    ensures var receipt := Digests(job.payload);
            && receipt.Keys == job.payload.Keys
            && Retired(job, receipt) == Outputs(job, receipt) == {}
            && Restores(job, receipt) == map[] && Target(job, receipt) == job.payload
  {
    assert Retired(job, Digests(job.payload)) == {};
    assert Restores(job, Digests(job.payload)) == map[];
  }

  lemma SettledIsFinal(job: Job, tree: Tree, previous: map<Name, Digest>)
    requires Outputs(job, previous) == {}
    requires forall n :: n in Target(job, previous) ==> n in tree && tree[n] == Regular(Target(job, previous)[n])
    ensures Final(job, tree, previous) == tree
  {
    hide Outputs, Target;
  }

  lemma ClearNames(job: Job, tree: Tree, files: map<Name, Digest>)
    ensures IsClear(job, tree, map[], map[], files) ==> forall n :: n in files ==> IsSafeRelative(n)
  {
    hide IsDirty, IsSafeRelative;
    var none: map<Name, Bytes> := map[];
    forall n | n in files && IsClear(job, tree, none, none, files)
      ensures IsSafeRelative(n)
    {
      assert n in none.Keys + files.Keys;
    }
  }

  /** A name of the old payload stays acceptable; a new one is acceptable unless it is taken. */
  lemma NextName(job: Job, tree: Tree, next: Job, n: Name)
    requires IsJob(job) && IsJob(next) && next.head == job.head && next.ignored == job.ignored
    requires forall m :: m in job.payload ==> m in tree && tree[m] == Regular(job.payload[m])
    requires IsClear(job, tree, map[], map[], Digests(job.payload))
    ensures IsDirty(next, tree, n) ==> n in job.payload
    ensures n in job.payload ==>
              IsSafeRelative(n)
              && IsAcceptable(tree, Target(next, Digests(job.payload)),
                              next.original + Restores(next, Digests(job.payload)), Digests(job.payload), n)
    ensures n in next.payload && n !in job.payload ==>
              (IsAcceptable(tree, Target(next, Digests(job.payload)),
                            next.original + Restores(next, Digests(job.payload)), Digests(job.payload), n)
              <==> IsSafeRelative(n) && (n in tree && n !in next.original ==> tree[n] == Regular(next.payload[n])))
  {
    hide IsSafeRelative;
    ClearNames(job, tree, Digests(job.payload));
    assert IsDirty(next, tree, n) == IsDirty(job, tree, n);
  }

  /** One prepare after another: a tree that prepare has left and nobody has edited is ready for any
      other payload on the same pin, unless a new name is unsafe or is taken by a file that is neither
      being patched nor already equal. Whatever the old payload no longer shares is retired. */
  lemma NextPrepareIsReady(job: Job, tree: Tree, previous: map<Name, Digest>, next: Job)
    requires IsJob(job) && IsReady(job, tree, previous) && IsJob(next) && next.head == job.head && next.ignored == job.ignored
    ensures var tree' := Final(job, tree, previous);
            IsReady(next, tree', Digests(job.payload)) <==>
              && (forall n :: n in next.payload ==> IsSafeRelative(n))
              && (forall n :: n in next.payload && n !in job.payload && n in tree' && n !in next.original ==>
                    tree'[n] == Regular(next.payload[n]))
  {
    hide IsSafeRelative, IsJob, IsAcceptable, IsDirty, Final;
    FinalIsClear(job, tree, previous);
    var tree', receipt := Final(job, tree, previous), Digests(job.payload);
    var names := Target(next, receipt).Keys + receipt.Keys;
    assert names == next.payload.Keys + job.payload.Keys;
    forall n {
      NextName(job, tree', next, n);
    }
    ReadyWhenAcceptable(next, tree', receipt);
    hide IsReady, IsClear, Retired, Restores, Outputs;
    assert forall n :: n in names ==> n in next.payload || n in job.payload;
  }

  lemma ReadyWhenAcceptable(job: Job, tree: Tree, previous: map<Name, Digest>)
    requires forall n :: n in previous ==> IsSafeRelative(n)
    requires forall n :: IsDirty(job, tree, n) ==> n in previous
    ensures IsReady(job, tree, previous) <==>
            forall n :: n in Target(job, previous).Keys + previous.Keys ==>
              IsAcceptable(tree, Target(job, previous), job.original + Restores(job, previous), previous, n)
  {
    hide IsSafeRelative, IsDirty, IsAcceptable, Target, Restores;
  }

  /** A file that prepare replaces or moves away holds pinned, receipted or target bytes: nothing
      else is ever lost, and what is moved is exactly what the tool had put there. */
  lemma OnlyKnownBytesChange(job: Job, tree: Tree, previous: map<Name, Digest>, n: Name)
    requires IsJob(job) && IsReady(job, tree, previous) && n in tree
    requires !(n in Final(job, tree, previous) && Final(job, tree, previous)[n] == tree[n])
    ensures tree[n].Regular?
    ensures var data := tree[n].data;
            || (n in previous && previous[n] == Sha(data))
            || (n in job.head && job.head[n] == data)
            || (n in job.payload && job.payload[n] == data)
    ensures n !in Final(job, tree, previous) ==> n in previous && previous[n] == Sha(tree[n].data) && n !in job.head
  {
    hide IsSafeRelative;
    TargetNames(job, previous);
    assert IsAcceptable(tree, Target(job, previous), job.original + Restores(job, previous), previous, n);
  }

  /** What verify demands of the tree. */
  ghost predicate IsVerified(job: Job, tree: Tree, receipt: Receipt, sources: map<Name, Bytes>) {
    && IsClear(job, tree, map[], map[], receipt.files)
    && (forall n :: n in receipt.files ==> n in tree && tree[n].Regular? && Sha(tree[n].data) == receipt.files[n])
    && sources.Keys == receipt.sourceFiles
    && (forall n :: n in sources ==> n in receipt.files && receipt.files[n] == Sha(sources[n]))
  }

  /** What verify demands, name by name: every receipted name is safe and holds a regular file with the
      receipted digest, no other name is dirty, and the sources are the receipted ones. */
  lemma VerifiedExactly(job: Job, tree: Tree, receipt: Receipt, sources: map<Name, Bytes>)
    ensures IsVerified(job, tree, receipt, sources) <==>
            && (forall n :: n in receipt.files ==>
                  IsSafeRelative(n) && n in tree && tree[n].Regular? && Sha(tree[n].data) == receipt.files[n])
            && (forall n :: n !in receipt.files ==>
                  if n in job.head then n in tree && tree[n] == Regular(job.head[n]) else n in tree ==> n in job.ignored)
            && sources.Keys == receipt.sourceFiles
            && (forall n :: n in sources ==> n in receipt.files && receipt.files[n] == Sha(sources[n]))
  {
    hide IsSafeRelative;
    ClearNames(job, tree, receipt.files);
    ClearDirty(job, tree, receipt.files);
    forall n | n in receipt.files && IsSafeRelative(n) && n in tree && tree[n].Regular? && Sha(tree[n].data) == receipt.files[n]
      ensures IsAcceptable(tree, map[], map[], receipt.files, n)
    {
      ReceiptedIsAcceptable(tree, receipt.files, n);
    }
    hide IsAcceptable, IsClear;
  }

  lemma ClearDirty(job: Job, tree: Tree, files: map<Name, Digest>)
    ensures IsClear(job, tree, map[], map[], files) <==>
            && (forall n :: IsDirty(job, tree, n) ==> n in files)
            && (forall n :: n in files ==> IsAcceptable(tree, map[], map[], files, n))
  {
    hide IsDirty, IsAcceptable;
    var none: map<Name, Bytes> := map[];
    assert forall n :: n in none.Keys + files.Keys <==> n in files;
  }

  lemma ReceiptedIsAcceptable(tree: Tree, files: map<Name, Digest>, n: Name)
    requires n in files && IsSafeRelative(n) && n in tree && tree[n].Regular? && Sha(tree[n].data) == files[n]
    ensures IsAcceptable(tree, map[], map[], files, n)
  {
    hide IsSafeRelative;
  }

  /** Once staged, and as long as the sources stay the same, verify accepts a tree if and only if every
      staged name holds exactly its staged bytes and nothing else is dirty: one missing, edited or
      irregular staged file is refused, and so is one unrelated dirty file. */
  lemma LaterTreeIsVerified(job: Job, tree: Tree, previous: map<Name, Digest>, tree': Tree, commit: string, identity: int)
    requires IsJob(job) && IsReady(job, tree, previous)
    requires forall n :: n in job.sources ==> job.payload[n] == job.sources[n]
    ensures IsVerified(job, tree', Receipt(commit, identity, Digests(job.payload), job.sources.Keys), job.sources) <==>
            && (forall n :: n in job.payload ==> n in tree' && tree'[n] == Regular(job.payload[n]))
            && (forall n :: n !in job.payload ==>
                  if n in job.head then n in tree' && tree'[n] == Regular(job.head[n]) else n in tree' ==> n in job.ignored)
  {
    var receipt := Receipt(commit, identity, Digests(job.payload), job.sources.Keys);
    hide IsSafeRelative, IsReady, IsVerified, IsClear;
    VerifiedExactly(job, tree', receipt, job.sources);
    FinalIsClear(job, tree, previous);
    ClearNames(job, Final(job, tree, previous), receipt.files);
    hide Final;
  }

  /** verify accepts what prepare leaves for as long as the product sources are the ones it staged,
      and only then. Right after prepare this fails exactly when the payload puts something else
      under the name of a source file. */
  lemma PreparedIsVerified(job: Job, tree: Tree, previous: map<Name, Digest>, commit: string, identity: int,
                           sources: map<Name, Bytes>)
    requires IsJob(job) && IsReady(job, tree, previous)
    ensures var receipt := Receipt(commit, identity, Digests(job.payload), job.sources.Keys);
            IsVerified(job, Final(job, tree, previous), receipt, sources) <==>
              sources.Keys == job.sources.Keys && forall n :: n in sources ==> job.payload[n] == sources[n]
  {
    hide IsReady, IsClear, Final;
    FinalIsClear(job, tree, previous);
    var files := Digests(job.payload);
    assert forall n :: n in sources && n in job.payload ==> (files[n] == Sha(sources[n]) <==> job.payload[n] == sources[n]);
  }

  /** A job that generates a file under the name of a source that says something else, on an empty tree. */
  function Clashing(name: Name, source: Bytes, generated: Bytes): Job {
    Job(map[], {}, map[name := generated], map[], map[name := source])
  }

  /** verify refuses what prepare has just staged for such a job. */
  lemma ClashIsRefused(name: Name, source: Bytes, generated: Bytes)
    requires IsSafeRelative(name) && source != generated
    ensures var job := Clashing(name, source, generated);
            && IsJob(job) && IsReady(job, map[], map[])
            && !IsVerified(job, Final(job, map[], map[]), Receipt("", 0, Digests(job.payload), job.sources.Keys), job.sources)
  {
    hide IsSafeRelative;
    var job := Clashing(name, source, generated);
    assert Retired(job, map[]) == {} && Restores(job, map[]) == map[];
    assert Target(job, map[]) == job.payload;
    PreparedIsVerified(job, map[], map[], "", 0, job.sources);
    assert name in job.sources && job.payload[name] != job.sources[name];
  }

  /** The same at one input. */
  lemma PreparedIsRefused()
    ensures var job := Clashing("mb" + "/" + ("generated" + "/" + "x"), "old", "new");
            && IsJob(job) && IsReady(job, map[], map[])
            && !IsVerified(job, Final(job, map[], map[]), Receipt("", 0, Digests(job.payload), job.sources.Keys), job.sources)
  {
    assert IsPlainPart("mb") && IsPlainPart("generated") && IsPlainPart("x");
    assert "old"[0] != "new"[0];
    hide IsPlainPart, Clashing, IsJob, IsReady, IsVerified, Final, Digests;
    PathOfThree("mb", "generated", "x");
    ClashIsRefused("mb" + "/" + ("generated" + "/" + "x"), "old", "new");
  }

  lemma PathOfThree(a: string, b: string, c: string)
    requires IsPlainPart(a) && IsPlainPart(b) && IsPlainPart(c)
    ensures IsSafeRelative(a + "/" + (b + "/" + c))
  {
    var name := a + "/" + (b + "/" + c);
    PartsOf(a, b + "/" + c);
    PartsOf(b, c);
    PartsOf(c, "");
    assert '\\' !in name;
    hide Parts;
    assert Parts(name) == [a] + ([b] + [c]);
    SafeParts(name);
  }

  predicate IsPlainPart(p: string) {
    p != "" && p[0] != '.' && '/' !in p && '\\' !in p
  }

  lemma SafeParts(name: Name)
    requires name != "" && '\\' !in name && forall p :: p in Parts(name) ==> IsPlainPart(p)
    ensures IsSafeRelative(name)
  {
    hide Parts;
  }

  lemma {:induction false} PartsOf(name: string, rest: string)
    requires name != "" && '/' !in name
    ensures Parts(name) == [name] && Parts(name + "/" + rest) == [name] + Parts(rest)
  {
    var s := name + "/" + rest;
    var t := s[1..];
    PartsCons(name);
    PartsCons(s);
    hide Parts;
    if |name| == 1 {
      NoParts(rest);
      assert name[1..] == "" && t == "/" + rest;
    } else {
      assert name[0] in name && t == name[1..] + "/" + rest;
      PartsOf(name[1..], rest);
    }
    assert [name[0]] + name[1..] == name;
  }

  lemma NoParts(rest: string)
    ensures Parts("") == [""] && Parts("/" + rest) == [""] + Parts(rest)
  {
    assert ("/" + rest)[1..] == rest;
  }

  lemma PartsCons(s: string)
    requires s != "" && s[0] != '/'
    ensures Parts(s) == [[s[0]] + Parts(s[1..])[0]] + Parts(s[1..])[1..]
  {
  }

  /** Parts joined by '/'. */
  function Joined(parts: seq<string>): string
    requires parts != []
  {
    if |parts| == 1 then parts[0] else parts[0] + "/" + Joined(parts[1..])
  }

  lemma {:induction false} JoinedParts(name: string)
    ensures Joined(Parts(name)) == name && forall p :: p in Parts(name) ==> '/' !in p
  {
    if name != "" {
      var rest := Parts(name[1..]);
      JoinedParts(name[1..]);
      if name[0] == '/' {
        assert ([""] + rest)[1..] == rest;
        assert "" + "/" + name[1..] == name;
      } else {
        PartsCons(name);
        var parts := Parts(name);
        assert parts[1..] == rest[1..];
        assert |rest| > 1 ==> [name[0]] + (rest[0] + "/" + Joined(rest[1..])) == [name[0]] + rest[0] + "/" + Joined(rest[1..]);
        assert [name[0]] + name[1..] == name;
      }
    }
  }

  lemma {:induction false} PartsOfJoined(parts: seq<string>)
    requires parts != [] && forall p :: p in parts ==> p != "" && '/' !in p
    ensures Parts(Joined(parts)) == parts
  {
    assert parts[0] in parts;
    if |parts| == 1 {
      PartsOf(parts[0], "");
    } else {
      assert forall p :: p in parts[1..] ==> p in parts;
      PartsOfJoined(parts[1..]);
      PartsOf(parts[0], Joined(parts[1..]));
    }
  }

  /** A name is safe exactly if it is a list of parts joined by '/', none of them empty, ".", ".." or with
      a slash of either kind in it. */
  lemma SafeExactly(name: Name)
    ensures IsSafeRelative(name) <==>
            '\\' !in name && exists parts :: parts != [] && name == Joined(parts)
                                             && forall p :: p in parts ==> p !in {"", ".", ".."} && '/' !in p
  {
    if IsSafeRelative(name) {
      JoinedParts(name);
    }
    if parts :| parts != [] && name == Joined(parts) && forall p :: p in parts ==> p !in {"", ".", ".."} && '/' !in p {
      PartsOfJoined(parts);
      assert parts[0] in parts;
    }
  }

  /* The tool. */

  datatype Outcome = Refused | Interrupted | Staged

  class Checkout {
    var tree: Tree
    var receipt: Option<Receipt>
    var archive: Tree

    constructor (tree: Tree, receipt: Option<Receipt>)
      ensures this.tree == tree && this.receipt == receipt && this.archive == map[]
    {
      this.tree, this.receipt, this.archive := tree, receipt, map[];
    }

    /** One round of the loop of check_changes. */
    method CheckName(payload: map<Name, Bytes>, original: map<Name, Bytes>, previous: map<Name, Digest>, name: Name)
      returns (ok: bool)
      ensures ok <==> IsAcceptable(tree, payload, original, previous, name)
    {
      hide IsSafeRelative;
      if !IsSafeRelative(name) { return false; }
      if name !in tree { return name !in original; }
      if tree[name].Irregular? { return false; }
      var current := Sha(tree[name].data);
      var acceptable: set<Digest> := if name in previous then {previous[name]} else {};
      if name in payload {
        acceptable := acceptable + {Sha(payload[name])};
      }
      if name in original {
        acceptable := acceptable + {Sha(original[name])};
      }
      return current in acceptable;
    }

    /** The loop of check_changes, over the allowed names in any order. */
    method CheckAllowed(payload: map<Name, Bytes>, original: map<Name, Bytes>, previous: map<Name, Digest>, allowed: set<Name>)
      returns (ok: bool)
      ensures ok <==> forall n :: n in allowed ==> IsAcceptable(tree, payload, original, previous, n)
    {
      hide IsAcceptable;
      var todo := allowed;
      while todo != {}
        invariant todo <= allowed
        invariant forall n :: n in allowed && n !in todo ==> IsAcceptable(tree, payload, original, previous, n)
        decreases |todo|
      {
        var name :| name in todo;
        todo := todo - {name};
        var acceptable := CheckName(payload, original, previous, name);
        if !acceptable { return false; }
      }
      return true;
    }

    /** check_changes. dirty is what git lists. */
    method CheckChanges(ghost job: Job, dirty: set<Name>, payload: map<Name, Bytes>, original: map<Name, Bytes>,
                        previous: map<Name, Digest>) returns (ok: bool)
      requires forall n :: n in dirty <==> IsDirty(job, tree, n)
      ensures ok <==> IsClear(job, tree, payload, original, previous)
    {
      hide IsDirty, IsAcceptable;
      var allowed := payload.Keys + previous.Keys;
      var unexpected := dirty - allowed;
      if unexpected != {} {
        var name :| name in unexpected;
        assert IsDirty(job, tree, name);
        return false;
      }
      assert forall n :: n in dirty && n !in allowed ==> n in unexpected;
      ok := CheckAllowed(payload, original, previous, allowed);
    }

    /** The loop of prepare that moves retired outputs into the archive. */
    method MoveRetired(names: set<Name>, mayStop: bool) returns (finished: bool)
      modifies this`tree, this`archive
      ensures IsMoved(old(tree), tree, names, finished) && (finished || mayStop)
      ensures forall n :: n in archive <==> n in old(archive) || (n in names && n in old(tree) && n !in tree)
      ensures forall n :: n in names && n in old(tree) && n !in tree ==> archive[n] == old(tree)[n]
    {
      var todo := names;
      while todo != {}
        invariant todo <= names
        invariant forall n :: n !in names || n in todo ==> IsKept(old(tree), tree, n)
        invariant forall n :: n in names && n !in todo ==> n !in tree
        invariant forall n :: n in archive <==> n in old(archive) || (n in names && n in old(tree) && n !in tree)
        invariant forall n :: n in names && n in old(tree) && n !in tree ==> archive[n] == old(tree)[n]
        decreases |todo|
      {
        var alive := *;
        if mayStop && !alive { return false; }
        var name :| name in todo;
        todo := todo - {name};
        if name in tree {
          archive := archive[name := tree[name]];
          tree := tree - {name};
        }
      }
      return true;
    }

    /** write_payload, in any order. */
    method WritePayload(payload: map<Name, Bytes>, mayStop: bool) returns (finished: bool)
      modifies this`tree
      ensures IsWritten(old(tree), tree, payload, finished) && (finished || mayStop)
    {
      var todo := payload.Keys;
      while todo != {}
        invariant todo <= payload.Keys
        invariant forall n :: n !in payload || n in todo ==> IsKept(old(tree), tree, n)
        invariant forall n :: n in payload && n !in todo ==> n in tree && tree[n] == Regular(payload[n])
        decreases |todo|
      {
        var alive := *;
        if mayStop && !alive { return false; }
        var name :| name in todo;
        todo := todo - {name};
        if !(name in tree && tree[name] == Regular(payload[name])) {
          tree := tree[name := Regular(payload[name])];
        }
      }
      return true;
    }

    /** The guard: retired_payload's check of the names, then check_changes. */
    method CheckReady(job: Job, previous: map<Name, Digest>, dirty: set<Name>) returns (ok: bool)
      requires forall n :: n in dirty <==> IsDirty(job, tree, n)
      ensures ok <==> IsReady(job, tree, previous)
    {
      hide IsDirty, IsSafeRelative, IsClear, Restores, Retired, Target;
      ok := CheckNames(Retired(job, previous));
      if ok {
        ok := CheckChanges(job, dirty, Target(job, previous), job.original + Restores(job, previous), previous);
      }
    }

    /** The moves and then the writes of prepare. */
    method Apply(job: Job, previous: map<Name, Digest>, mayStop: bool) returns (finished: bool)
      requires IsJob(job)
      modifies this`tree, this`archive
      ensures IsBetween(job, old(tree), tree, previous)
      ensures finished ==> tree == Final(job, old(tree), previous)
      ensures finished || mayStop
      ensures forall n :: n in Outputs(job, previous) && n in old(tree) && n !in tree ==>
                n in archive && archive[n] == old(tree)[n]
    {
      hide IsJob, Outputs, Target, IsBetween, Final, IsMoved, IsWritten;
      finished := MoveRetired(Outputs(job, previous), mayStop);
      ghost var moved := tree;
      if !finished {
        MovedIsBetween(job, old(tree), moved, moved, previous, false, false);
        return;
      }
      finished := WritePayload(Target(job, previous), mayStop);
      MovedIsBetween(job, old(tree), moved, tree, previous, true, finished);
    }

    /** prepare. permitted covers the checks made before the tree is looked at: no live process, the
        pinned revisions, the baseline review. dirty is what git lists. */
    method Prepare(job: Job, commit: string, identity: int, permitted: bool, dirty: set<Name>, mayStop: bool)
      returns (outcome: Outcome)
      requires IsJob(job) && forall n :: n in dirty <==> IsDirty(job, tree, n)
      modifies this
      ensures var previous := if old(receipt).Some? then old(receipt).value.files else map[];
              var ready := permitted && (old(receipt).Some? ==> old(receipt).value.commit == commit)
                           && IsReady(job, old(tree), previous);
              && (outcome == Refused <==> !ready)
              && (outcome == Refused ==> tree == old(tree) && archive == old(archive) && receipt == old(receipt))
              && (outcome == Interrupted ==> mayStop && IsBetween(job, old(tree), tree, previous) && receipt == old(receipt))
              && (outcome == Staged ==>
                    && tree == Final(job, old(tree), previous)
                    && (forall n ::
                          if n in job.payload then n in tree && tree[n] == Regular(job.payload[n])
                          else if n !in previous then IsKept(old(tree), tree, n)
                          else if n in job.head then n in tree && tree[n] == Regular(job.head[n])
                          else n !in tree)
                    && receipt == Some(Receipt(commit, identity, Digests(job.payload), job.sources.Keys)))
              && (forall n :: n in Outputs(job, previous) && n in old(tree) && n !in tree ==>
                    n in archive && archive[n] == old(tree)[n])
    {
      hide IsJob, IsDirty, IsReady, IsBetween, Final, Outputs, Digests;
      var previous: map<Name, Digest> := map[];
      if receipt.Some? {
        previous := receipt.value.files;
      }
      if !permitted || (receipt.Some? && receipt.value.commit != commit) { return Refused; }
      var ready := CheckReady(job, previous, dirty);
      if !ready { return Refused; }
      var finished := Apply(job, previous, mayStop);
      var alive := *;
      if mayStop && !(finished && alive) { return Interrupted; }
      receipt := Some(Receipt(commit, identity, Digests(job.payload), job.sources.Keys));
      FinalEverywhere(job, old(tree), previous);
      return Staged;
    }

    /** The first loop of verify. */
    method CheckFiles(files: map<Name, Digest>) returns (ok: bool)
      ensures ok <==> forall n :: n in files ==>
                        IsSafeRelative(n) && n in tree && tree[n].Regular? && Sha(tree[n].data) == files[n]
    {
      hide IsSafeRelative;
      var todo := files.Keys;
      while todo != {}
        invariant todo <= files.Keys
        invariant forall n :: n in files && n !in todo ==>
                    IsSafeRelative(n) && n in tree && tree[n].Regular? && Sha(tree[n].data) == files[n]
        decreases |todo|
      {
        var name :| name in todo;
        todo := todo - {name};
        if !IsSafeRelative(name) || name !in tree || tree[name].Irregular? || Sha(tree[name].data) != files[name] {
          return false;
        }
      }
      return true;
    }

    /** verify, against the current sources. dirty is what git lists. */
    method Verify(ghost job: Job, sources: map<Name, Bytes>, commit: string, identity: int, dirty: set<Name>) returns (ok: bool)
      requires forall n :: n in dirty <==> IsDirty(job, tree, n)
      ensures ok <==>
                && receipt.Some? && receipt.value.commit == commit && receipt.value.identity == identity
                && IsVerified(job, tree, receipt.value, sources)
      // In particular every receipted file is there as it was staged, and nothing else is dirty.
      ensures ok ==>
                && (forall n :: n in receipt.value.files ==>
                      n in tree && tree[n].Regular? && Sha(tree[n].data) == receipt.value.files[n])
                && (forall n :: n in dirty ==> n in receipt.value.files)
    {
      hide IsDirty, IsSafeRelative, IsClear;
      if receipt == None || receipt.value.commit != commit { return false; }
      var files := receipt.value.files;
      ClearNames(job, tree, files);
      ok := CheckFiles(files);
      if !ok { return; }
      ok := CheckSources(files, receipt.value.sourceFiles, sources);
      if !ok { return; }
      if receipt.value.identity != identity { return false; }
      ok := CheckChanges(job, dirty, map[], map[], files);
      ClearDirty(job, tree, files);
    }
  }

  /** verify_product_sources. */
  method CheckSources(files: map<Name, Digest>, expected: set<Name>, sources: map<Name, Bytes>) returns (ok: bool)
    ensures ok <==> sources.Keys == expected && forall n :: n in sources ==> n in files && files[n] == Sha(sources[n])
  {
    if sources.Keys != expected { return false; }
    var todo := sources.Keys;
    while todo != {}
      invariant todo <= sources.Keys
      invariant forall n :: n in sources && n !in todo ==> n in files && files[n] == Sha(sources[n])
      decreases |todo|
    {
      var name :| name in todo;
      todo := todo - {name};
      if name !in files || files[name] != Sha(sources[name]) { return false; }
    }
    return true;
  }

  method CheckNames(names: set<Name>) returns (ok: bool)
    ensures ok <==> forall n :: n in names ==> IsSafeRelative(n)
  {
    hide IsSafeRelative;
    var todo := names;
    while todo != {}
      invariant todo <= names
      invariant forall n :: n in names && n !in todo ==> IsSafeRelative(n)
      decreases |todo|
    {
      var name :| name in todo;
      todo := todo - {name};
      if !IsSafeRelative(name) { return false; }
    }
    return true;
  }
}
