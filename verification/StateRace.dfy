/** Concurrent use of the remembered-selection file.

    Any number of processes replace and read state.toml, one system call at a time in any
    interleaving; writes and reads may be short, any call may fail, and any process may die between
    two calls. The file is an atomic register all the same. */
module StateRace {

  import opened Wrappers
  import opened StateText

  type FileId = nat

  /** isPrivate: a regular file of this user without group or other access. */
  datatype File = File(content: string, isPrivate: bool)

  /** The state directory. A file outlives its name while a process holds it open. */
  datatype Dir = Dir(entries: map<string, FileId>, files: map<FileId, File>, next: FileId)

  const STATE := "state.toml"
  const ATTEMPTS := 32
  const CHUNK := 128

  function Decimal(n: nat): string {
    (if n < 10 then "" else Decimal(n / 10)) + [("0123456789")[n % 10]]
  }

  /** The temporary's name: made of the process id and the attempt only. */
  function TempName(pid: nat, attempt: nat): string {
    ".state.toml." + Decimal(pid) + "." + Decimal(attempt) + ".tmp"
  }

  /** Where a write failed: before it started, or at which call. */
  datatype Fault =
    | NotPortable
    | Unprepared        // the state directory cannot be prepared; arises only outside this module
    | NoFreeName        // every temporary name is taken
    | AtCreate
    | AtWrite
    | AtFsync
    | AtClose
    | AtRename
    | AtDirectoryFsync  // after the file has been replaced

  datatype WriterPhase =
    | Allocating(attempt: nat)
    | Writing(temp: string, file: FileId, rest: string)
    | Syncing(temp: string, file: FileId)
    | Closing(temp: string, file: FileId)
    | Renaming(temp: string, file: FileId)
    | SyncingDirectory(index: nat)
    | Unlinking(temp: string, file: FileId, after: Fault)
    | Succeeded(index: nat)
    | Unsuccessful(fault: Fault)
    | Dead
  {
    /** The phases in which the writer has a temporary of its own. */
    predicate HasTemp() {
      Writing? || Syncing? || Closing? || Renaming? || Unlinking?
    }
  }

  /** id tells one write from another; pid names its temporary. */
  datatype Writer = Writer(id: nat, name: string, pid: nat, phase: WriterPhase)

  /** One replacement of state.toml. */
  datatype Replacement = Replacement(writer: nat, name: string)

  datatype Outcome = Nothing | Remembered(name: string) | Malformed | InputError

  /** since is the number of replacements made before the reader opened the file. */
  datatype Reader =
    | Opening
    | Inspecting(file: FileId, since: nat)
    | Reading(file: FileId, text: string, since: nat)
    | Finished(outcome: Outcome, since: nat)

  /** published lists the replacements made so far, oldest first. */
  datatype State = State(dir: Dir, writers: map<nat, Writer>, readers: map<nat, Reader>, published: seq<Replacement>)

  /** What the kernel does with a call: performs it, fails it, or transfers amount bytes. */
  datatype Reply = Done | Failing | Amount(n: nat)

  datatype Action =
    | StartWriter(id: nat, name: string, pid: nat)
    | StartReader(id: nat)
    | Write(id: nat, reply: Reply)
    | Read(id: nat, reply: Reply)
    | Kill(id: nat)

  predicate IsDir(d: Dir) {
    && (forall n :: n in d.entries ==> d.entries[n] in d.files)
    && (forall f :: f in d.files ==> f < d.next)
  }

  /* One call of WriteRememberedEnvironment. */

  function WriterStep(d: Dir, published: seq<Replacement>, w: Writer, reply: Reply): (Dir, seq<Replacement>, Writer) {
    match w.phase
    case Allocating(k) =>
      if reply.Failing? then (d, published, w.(phase := Unsuccessful(AtCreate)))
      else
        var temp := TempName(w.pid, k);
        if temp in d.entries then
          (d, published, w.(phase := if k + 1 < ATTEMPTS then Allocating(k + 1) else Unsuccessful(NoFreeName)))
        else
          (Dir(d.entries[temp := d.next], d.files[d.next := File("", true)], d.next + 1), published,
           w.(phase := Writing(temp, d.next, StateFor(w.name))))
    case Writing(temp, file, rest) =>
      if rest == "" then (d, published, w.(phase := Syncing(temp, file)))
      else if !reply.Amount? then (d, published, w.(phase := Unlinking(temp, file, AtWrite)))
      else if reply.n == 0 || file !in d.files then (d, published, w.(phase := Unlinking(temp, file, AtWrite)))
      else
        var n := if reply.n <= |rest| then reply.n else |rest|;
        (d.(files := d.files[file := d.files[file].(content := d.files[file].content + rest[..n])]), published,
         w.(phase := Writing(temp, file, rest[n..])))
    case Syncing(temp, file) =>
      (d, published, w.(phase := if reply.Failing? then Unlinking(temp, file, AtFsync) else Closing(temp, file)))
    case Closing(temp, file) =>
      (d, published, w.(phase := if reply.Failing? then Unlinking(temp, file, AtClose) else Renaming(temp, file)))
    case Renaming(temp, file) =>
      if reply.Failing? || temp !in d.entries then (d, published, w.(phase := Unlinking(temp, file, AtRename)))
      else
        (d.(entries := (d.entries - {temp})[STATE := d.entries[temp]]), published + [Replacement(w.id, w.name)],
         w.(phase := SyncingDirectory(|published|)))
    case SyncingDirectory(k) =>
      (d, published, w.(phase := if reply.Failing? then Unsuccessful(AtDirectoryFsync) else Succeeded(k)))
    case Unlinking(temp, file, fault) =>
      (if reply.Failing? then d else d.(entries := d.entries - {temp}), published, w.(phase := Unsuccessful(fault)))
    case _ => (d, published, w)
  }

  /* One call of ReadRememberedEnvironment. */

  function Parsed(content: string): Outcome {
    match ParseState(content)
    case Some(name) => Remembered(name)
    case None => Malformed
  }

  function ReaderStep(d: Dir, published: seq<Replacement>, r: Reader, reply: Reply): Reader
    requires IsDir(d)
  {
    match r
    case Opening =>
      if reply.Failing? then Finished(InputError, |published|)
      else if STATE !in d.entries then Finished(Nothing, |published|)
      else Inspecting(d.entries[STATE], |published|)
    case Inspecting(file, since) =>
      if reply.Failing? || file !in d.files then Finished(InputError, since)
      else if !d.files[file].isPrivate || |d.files[file].content| > STATE_LIMIT then Finished(Malformed, since)
      else Reading(file, "", since)
    case Reading(file, text, since) =>
      if !reply.Amount? || file !in d.files then Finished(InputError, since)
      else
        var content := d.files[file].content;
        if |text| >= |content| then Finished(Parsed(text), since)
        else
          // A read transfers at least one byte, at most the buffer, at most what is left.
          var n := if reply.n == 0 then 1 else if reply.n <= CHUNK then reply.n else CHUNK;
          var end := if |text| + n <= |content| then |text| + n else |content|;
          if end > STATE_LIMIT then Finished(Malformed, since)
          else Reading(file, text + content[|text|..end], since)
    case Finished(_, _) => r
  }

  /** A call of WriteRememberedEnvironment, which looks at the name first. */
  function NewWriter(id: nat, name: string, pid: nat): Writer {
    Writer(id, name, pid, if IsPortable(name) then Allocating(0) else Unsuccessful(NotPortable))
  }

  function Next(s: State, a: Action): State
    requires IsDir(s.dir)
  {
    match a
    case StartWriter(id, name, pid) =>
      if id in s.writers then s
      else s.(writers := s.writers[id := NewWriter(id, name, pid)])
    case StartReader(id) => if id in s.readers then s else s.(readers := s.readers[id := Opening])
    case Write(id, reply) =>
      if id !in s.writers then s
      else
        var (d, p, w) := WriterStep(s.dir, s.published, s.writers[id], reply);
        s.(dir := d, published := p, writers := s.writers[id := w])
    case Read(id, reply) =>
      if id !in s.readers then s
      else s.(readers := s.readers[id := ReaderStep(s.dir, s.published, s.readers[id], reply)])
    case Kill(id) =>
      s.(writers := if id in s.writers then s.writers[id := s.writers[id].(phase := Dead)] else s.writers,
         readers := s.readers - {id})
  }

  /* The register. */

  /** The content of state.toml after k replacements, None while it does not exist. */
  function ContentAfter(d0: Dir, published: seq<Replacement>, k: nat): Option<File>
    requires IsDir(d0) && k <= |published|
  {
    if k > 0 then Some(File(StateFor(published[k - 1].name), true))
    else if STATE in d0.entries then Some(d0.files[d0.entries[STATE]])
    else None
  }

  /** What a reader that starts after k replacements must report, unless a call fails. */
  function Expected(d0: Dir, published: seq<Replacement>, k: nat): Outcome
    requires IsDir(d0) && k <= |published|
  {
    match ContentAfter(d0, published, k)
    case None => Nothing
    case Some(f) => if !f.isPrivate || |f.content| > STATE_LIMIT then Malformed else Parsed(f.content)
  }

  /** What the writer has put into its temporary. */
  predicate IsWritten(w: Writer, content: string) {
    match w.phase
    case Writing(_, _, rest) => content + rest == StateFor(w.name)
    case Syncing(_, _) => content == StateFor(w.name)
    case Closing(_, _) => content == StateFor(w.name)
    case Renaming(_, _) => content == StateFor(w.name)
    case _ => true
  }

  /** A writer's own account of its progress. While it has a temporary, the file is private, holds
      what was written so far, and has no other name. */
  ghost predicate WriterOk(d: Dir, published: seq<Replacement>, w: Writer) {
    && (w.phase.Allocating? ==> IsPortable(w.name))
    && (w.phase.SyncingDirectory? || w.phase.Succeeded? ==>
          w.phase.index < |published| && published[w.phase.index] == Replacement(w.id, w.name))
    && (w.phase.HasTemp() ==>
          && IsPortable(w.name) && w.phase.temp != STATE
          && w.phase.temp in d.entries && d.entries[w.phase.temp] == w.phase.file
          && w.phase.file in d.files && d.files[w.phase.file].isPrivate
          && IsWritten(w, d.files[w.phase.file].content)
          && forall n :: n in d.entries && d.entries[n] == w.phase.file ==> n == w.phase.temp)
  }

  /** No two writers share a temporary. */
  predicate AreApart(v: Writer, w: Writer) {
    v.phase.HasTemp() && w.phase.HasTemp() ==> v.phase.file != w.phase.file && v.phase.temp != w.phase.temp
  }

  predicate HasFile(r: Reader) {
    r.Inspecting? || r.Reading?
  }

  /** No reader holds a file that a writer may still write to. */
  predicate IsUnread(w: Writer, r: Reader) {
    w.phase.HasTemp() && HasFile(r) ==> r.file != w.phase.file
  }

  ghost predicate ReaderOk(d0: Dir, d: Dir, published: seq<Replacement>, r: Reader)
    requires IsDir(d0)
  {
    match r
    case Opening => true
    case Inspecting(file, since) =>
      since <= |published| && file in d.files && ContentAfter(d0, published, since) == Some(d.files[file])
    case Reading(file, text, since) =>
      && since <= |published| && file in d.files && ContentAfter(d0, published, since) == Some(d.files[file])
      && d.files[file].isPrivate && |d.files[file].content| <= STATE_LIMIT
      && text <= d.files[file].content
    case Finished(outcome, since) =>
      since <= |published| && (outcome == InputError || outcome == Expected(d0, published, since))
  }

  /** state.toml holds the initial file, or the complete text of the last name published. */
  ghost predicate IsRegister(d0: Dir, d: Dir, published: seq<Replacement>)
    requires IsDir(d0) && IsDir(d)
  {
    && ContentAfter(d0, published, |published|) ==
       (if STATE in d.entries then Some(d.files[d.entries[STATE]]) else None)
    && (forall k :: 0 <= k < |published| ==> IsPortable(published[k].name))
  }

  ghost predicate Invariant(d0: Dir, s: State) {
    && IsDir(d0) && IsDir(s.dir) && IsRegister(d0, s.dir, s.published)
    && (forall i :: i in s.writers ==> WriterOk(s.dir, s.published, s.writers[i]))
    && (forall i, j :: i in s.writers && j in s.writers && i != j ==> AreApart(s.writers[i], s.writers[j]))
    && (forall r :: r in s.readers ==> ReaderOk(d0, s.dir, s.published, s.readers[r]))
    && (forall i, r :: i in s.writers && r in s.readers ==> IsUnread(s.writers[i], s.readers[r]))
  }

  lemma TempIsNotState(pid: nat, k: nat)
    ensures TempName(pid, k) != STATE
  {
    assert TempName(pid, k)[0] == '.' && STATE[0] == 's';
  }

  /** What readers saw earlier does not change when more is published. */
  lemma PublishKeepsPast(d0: Dir, published: seq<Replacement>, next: Replacement, k: nat)
    requires IsDir(d0) && k <= |published|
    ensures ContentAfter(d0, published + [next], k) == ContentAfter(d0, published, k)
    ensures Expected(d0, published + [next], k) == Expected(d0, published, k)
  {
  }

  /* One writer call: the writer itself, the register, the other writers, the readers. */

  lemma WriterKeepsItself(d: Dir, published: seq<Replacement>, w: Writer, reply: Reply)
    requires IsDir(d) && WriterOk(d, published, w)
    ensures var (d', p', w') := WriterStep(d, published, w, reply);
            IsDir(d') && WriterOk(d', p', w')
  {
    hide TempName, IsPortable, StateFor;
    if w.phase.Allocating? {
      TempIsNotState(w.pid, w.phase.attempt);
    } else if w.phase.Writing? && reply.Amount? {
      var rest := w.phase.rest;
      var n := if reply.n <= |rest| then reply.n else |rest|;
      var content := d.files[w.phase.file].content;
      assert content + rest[..n] + rest[n..] == content + rest;
    }
  }

  lemma WriterKeepsRegister(d0: Dir, d: Dir, published: seq<Replacement>, w: Writer, reply: Reply)
    requires IsDir(d0) && IsDir(d) && WriterOk(d, published, w) && IsRegister(d0, d, published)
    ensures var (d', p', w') := WriterStep(d, published, w, reply);
            IsDir(d') && IsRegister(d0, d', p')
  {
    hide TempName, IsPortable, StateFor;
    if w.phase.Allocating? {
      TempIsNotState(w.pid, w.phase.attempt);
    }
  }

  lemma WriterKeepsWriter(d: Dir, published: seq<Replacement>, w: Writer, reply: Reply, v: Writer)
    requires IsDir(d) && WriterOk(d, published, w) && WriterOk(d, published, v) && AreApart(w, v)
    ensures var (d', p', w') := WriterStep(d, published, w, reply);
            WriterOk(d', p', v) && AreApart(w', v) && AreApart(v, w')
  {
    hide TempName, IsPortable, StateFor;
  }

  lemma WriterKeepsReader(d0: Dir, d: Dir, published: seq<Replacement>, w: Writer, reply: Reply, r: Reader)
    requires IsDir(d0) && IsDir(d) && WriterOk(d, published, w) && ReaderOk(d0, d, published, r) && IsUnread(w, r)
    ensures var (d', p', w') := WriterStep(d, published, w, reply);
            ReaderOk(d0, d', p', r) && IsUnread(w', r)
  {
    hide TempName, IsPortable, StateFor, ContentAfter, Expected;
    if w.phase.Renaming? && !r.Opening? {
      PublishKeepsPast(d0, published, Replacement(w.id, w.name), r.since);
    }
  }

  lemma WriteKeeps(d0: Dir, s: State, id: nat, reply: Reply)
    requires Invariant(d0, s)
    ensures Invariant(d0, Next(s, Write(id, reply)))
  {
    hide WriterStep, WriterOk, ReaderOk, IsRegister, AreApart, IsUnread, IsDir;
    if id in s.writers {
      var w := s.writers[id];
      WriterKeepsItself(s.dir, s.published, w, reply);
      WriterKeepsRegister(d0, s.dir, s.published, w, reply);
      forall i | i in s.writers && i != id
        ensures var (d', p', w') := WriterStep(s.dir, s.published, w, reply);
                WriterOk(d', p', s.writers[i]) && AreApart(w', s.writers[i]) && AreApart(s.writers[i], w')
      {
        WriterKeepsWriter(s.dir, s.published, w, reply, s.writers[i]);
      }
      forall r | r in s.readers
        ensures var (d', p', w') := WriterStep(s.dir, s.published, w, reply);
                ReaderOk(d0, d', p', s.readers[r]) && IsUnread(w', s.readers[r])
      {
        WriterKeepsReader(d0, s.dir, s.published, w, reply, s.readers[r]);
      }
    }
  }

  /* One reader call. */

  lemma ReaderKeepsItself(d0: Dir, d: Dir, published: seq<Replacement>, r: Reader, reply: Reply)
    requires IsDir(d0) && IsDir(d) && IsRegister(d0, d, published) && ReaderOk(d0, d, published, r)
    ensures ReaderOk(d0, d, published, ReaderStep(d, published, r, reply))
  {
    hide ParseState, StateFor, IsPortable;
    if r.Reading? {
      var content := d.files[r.file].content;
      if reply.Amount? && |r.text| < |content| {
        var n := if reply.n == 0 then 1 else if reply.n <= CHUNK then reply.n else CHUNK;
        var end := if |r.text| + n <= |content| then |r.text| + n else |content|;
        assert r.text + content[|r.text|..end] == content[..end];
      } else if |r.text| >= |content| {
        assert r.text == content;
      }
    }
  }

  /** Only the file behind state.toml is ever opened, and a writer's temporary is not it. */
  lemma ReaderStaysUnread(d0: Dir, d: Dir, published: seq<Replacement>, w: Writer, r: Reader, reply: Reply)
    requires IsDir(d) && WriterOk(d, published, w) && IsUnread(w, r)
    ensures IsUnread(w, ReaderStep(d, published, r, reply))
  {
    hide ParseState, StateFor, IsPortable;
  }

  lemma ReadKeeps(d0: Dir, s: State, id: nat, reply: Reply)
    requires Invariant(d0, s)
    ensures Invariant(d0, Next(s, Read(id, reply)))
  {
    hide ReaderStep, WriterOk, ReaderOk, IsRegister, AreApart, IsUnread;
    if id in s.readers {
      ReaderKeepsItself(d0, s.dir, s.published, s.readers[id], reply);
      forall i | i in s.writers
        ensures IsUnread(s.writers[i], ReaderStep(s.dir, s.published, s.readers[id], reply))
      {
        ReaderStaysUnread(d0, s.dir, s.published, s.writers[i], s.readers[id], reply);
      }
    }
  }

  lemma IdleIsHarmless(d: Dir, published: seq<Replacement>, w: Writer)
    requires w.phase.Dead? || w.phase.Unsuccessful? || (w.phase.Allocating? && IsPortable(w.name))
    ensures WriterOk(d, published, w)
    ensures forall v :: AreApart(v, w) && AreApart(w, v)
    ensures forall r :: IsUnread(w, r)
  {
  }

  lemma OpeningIsHarmless(d0: Dir, d: Dir, published: seq<Replacement>)
    requires IsDir(d0)
    ensures ReaderOk(d0, d, published, Opening)
    ensures forall w :: IsUnread(w, Opening)
  {
  }

  lemma StartOrKillKeeps(d0: Dir, s: State, a: Action)
    requires Invariant(d0, s) && !a.Write? && !a.Read?
    ensures Invariant(d0, Next(s, a))
  {
    hide WriterOk, ReaderOk, IsRegister, AreApart, IsUnread, IsPortable;
    match a
    case StartWriter(id, name, pid) =>
      IdleIsHarmless(s.dir, s.published, NewWriter(id, name, pid));
    case StartReader(id) => OpeningIsHarmless(d0, s.dir, s.published);
    case Kill(id) =>
      if id in s.writers {
        IdleIsHarmless(s.dir, s.published, s.writers[id].(phase := Dead));
      }
  }

  /* Whole runs. */

  ghost predicate CanRun(s: State, actions: seq<Action>)
    decreases |actions|
  {
    IsDir(s.dir) && (actions != [] ==> CanRun(Next(s, actions[0]), actions[1..]))
  }

  ghost function Run(s: State, actions: seq<Action>): State
    requires CanRun(s, actions)
    decreases |actions|
  {
    if actions == [] then s else Run(Next(s, actions[0]), actions[1..])
  }

  lemma {:induction false} RunKeeps(d0: Dir, s: State, actions: seq<Action>)
    requires Invariant(d0, s)
    ensures CanRun(s, actions) && Invariant(d0, Run(s, actions))
    ensures |s.published| <= |Run(s, actions).published| && s.published == Run(s, actions).published[..|s.published|]
    decreases |actions|
  {
    hide Next, WriterOk, ReaderOk, IsRegister, AreApart, IsUnread;
    if actions != [] {
      match actions[0] {
        case Write(id, reply) => WriteKeeps(d0, s, id, reply);
        case Read(id, reply) => ReadKeeps(d0, s, id, reply);
        case _ => StartOrKillKeeps(d0, s, actions[0]);
      }
      NextPublishes(s, actions[0]);
      RunKeeps(d0, Next(s, actions[0]), actions[1..]);
      var p, q := Next(s, actions[0]).published, Run(Next(s, actions[0]), actions[1..]).published;
      assert q[..|s.published|] == q[..|p|][..|s.published|];
    } else {
      assert s.published == s.published[..|s.published|];
    }
  }

  lemma NextPublishes(s: State, a: Action)
    requires IsDir(s.dir)
    ensures |s.published| <= |Next(s, a).published| && s.published == Next(s, a).published[..|s.published|]
  {
    hide TempName, StateFor, IsPortable;
  }

  function Initial(d0: Dir): State {
    State(d0, map[], map[], [])
  }

  lemma InitialInvariant(d0: Dir)
    requires IsDir(d0)
    ensures Invariant(d0, Initial(d0))
  {
  }

  /** In every reachable state state.toml is the untouched initial file, or the complete text of a
      portable name: the one published last. It is never missing again once published. */
  lemma StateFileIsNeverTorn(d0: Dir, actions: seq<Action>)
    requires IsDir(d0)
    ensures CanRun(Initial(d0), actions)
    ensures var s := Run(Initial(d0), actions);
            && IsDir(s.dir)
            && (s.published == [] ==>
                  (STATE in s.dir.entries <==> STATE in d0.entries) &&
                  (STATE in d0.entries ==> s.dir.files[s.dir.entries[STATE]] == d0.files[d0.entries[STATE]]))
            && (s.published != [] ==>
                  var name := s.published[|s.published| - 1].name;
                  && IsPortable(name) && STATE in s.dir.entries
                  && s.dir.files[s.dir.entries[STATE]] == File(StateFor(name), true)
                  && ParseState(StateFor(name)) == Some(name) && |StateFor(name)| <= STATE_LIMIT)
  {
    hide StateFor, ParseState, IsPortable, WriterOk, ReaderOk, AreApart, IsUnread;
    InitialInvariant(d0);
    RunKeeps(d0, Initial(d0), actions);
    var s := Run(Initial(d0), actions);
    if s.published != [] {
      PortableReadsBack(s.published[|s.published| - 1].name);
    }
  }

  lemma PortableReadsBack(name: string)
    requires IsPortable(name)
    ensures ParseState(StateFor(name)) == Some(name) && |StateFor(name)| <= STATE_LIMIT
    ensures Parsed(StateFor(name)) == Remembered(name)
  {
    PrefixParts();
    ParseIsExact(StateFor(name), name);
  }

  /** What a private file of up to 512 bytes is read as. */
  lemma ReportExactly(f: File, name: string)
    ensures f.isPrivate && |f.content| <= STATE_LIMIT && Parsed(f.content) == Remembered(name) <==>
            IsPortable(name) && f == File(StateFor(name), true)
  {
    if IsPortable(name) { PortableReadsBack(name); }
    if |f.content| <= STATE_LIMIT { ParseIsExact(f.content, name); }
  }

  /** What a reader reports that opened the initial file, whatever was published later. */
  lemma InitialReport(d0: Dir, published: seq<Replacement>)
    requires IsDir(d0)
    ensures Expected(d0, published, 0) == Nothing <==> STATE !in d0.entries
    ensures forall name :: Expected(d0, published, 0) == Remembered(name) <==>
              IsPortable(name) && STATE in d0.entries && d0.files[d0.entries[STATE]] == File(StateFor(name), true)
  {
    hide IsPortable, StateFor, ParseState;
    if STATE in d0.entries {
      forall name
        ensures Expected(d0, published, 0) == Remembered(name) <==>
                IsPortable(name) && d0.files[d0.entries[STATE]] == File(StateFor(name), true)
      {
        ReportExactly(d0.files[d0.entries[STATE]], name);
      }
    }
  }

  lemma PublishedReport(d0: Dir, published: seq<Replacement>, k: nat)
    requires IsDir(d0) && 0 < k <= |published| && IsPortable(published[k - 1].name)
    ensures Expected(d0, published, k) == Remembered(published[k - 1].name)
  {
    PortableReadsBack(published[k - 1].name);
    hide StateFor, ParseState;
  }

  /** Reads are atomic: a reader that finishes without a failed call reports the name published last before
      it opened the file, or, before any was, the name whose text the initial file, if private, holds. */
  lemma ReadsAreAtomic(d0: Dir, actions: seq<Action>, id: nat)
    requires IsDir(d0) && CanRun(Initial(d0), actions)
    requires id in Run(Initial(d0), actions).readers && Run(Initial(d0), actions).readers[id].Finished?
    ensures var s := Run(Initial(d0), actions);
            var r := s.readers[id];
            && r.since <= |s.published|
            && (r.outcome == InputError
                || (if r.since > 0 then r.outcome == Remembered(s.published[r.since - 1].name)
                    else
                      && (r.outcome == Nothing <==> STATE !in d0.entries)
                      && forall name :: r.outcome == Remembered(name) <==>
                           IsPortable(name) && STATE in d0.entries
                           && d0.files[d0.entries[STATE]] == File(StateFor(name), true)))
  {
    hide Expected, StateFor, ParseState, IsPortable, WriterOk, AreApart, IsUnread, Run, CanRun;
    InitialInvariant(d0);
    RunKeeps(d0, Initial(d0), actions);
    var s := Run(Initial(d0), actions);
    var r := s.readers[id];
    assert ReaderOk(d0, s.dir, s.published, r);
    if r.since > 0 {
      PublishedReport(d0, s.published, r.since);
    } else {
      InitialReport(d0, s.published);
    }
  }

  /* Who replaced the file. */

  ghost predicate HasReplaced(published: seq<Replacement>, id: nat) {
    exists k :: 0 <= k < |published| && published[k].writer == id
  }

  /** The rename has been done. */
  predicate IsPastRename(phase: WriterPhase) {
    phase.SyncingDirectory? || phase.Succeeded? || phase == Unsuccessful(AtDirectoryFsync)
  }

  /** The log names a write at most once, under its own name, and, unless its process has died,
      exactly if the write is past its rename. */
  ghost predicate IsAttributed(s: State) {
    && (forall i :: i in s.writers ==> s.writers[i].id == i)
    && (forall k :: 0 <= k < |s.published| ==>
          s.published[k].writer in s.writers && s.published[k].name == s.writers[s.published[k].writer].name)
    && (forall j, k :: 0 <= j < k < |s.published| ==> s.published[j].writer != s.published[k].writer)
    && (forall i :: i in s.writers && !s.writers[i].phase.Dead? ==>
          (HasReplaced(s.published, i) <==> IsPastRename(s.writers[i].phase)))
    && (forall i :: i in s.writers && s.writers[i].phase.Unlinking? ==> s.writers[i].phase.after != AtDirectoryFsync)
  }

  /** A call publishes nothing, or it is the rename of a write that is past it then. */
  lemma StepPublishes(d: Dir, published: seq<Replacement>, w: Writer, reply: Reply)
    requires w.phase.Unlinking? ==> w.phase.after != AtDirectoryFsync
    ensures var (d', p', w') := WriterStep(d, published, w, reply);
            && w'.id == w.id && w'.name == w.name && (w'.phase.Dead? <==> w.phase.Dead?)
            && (w'.phase.Unlinking? ==> w'.phase.after != AtDirectoryFsync)
            && if p' == published then IsPastRename(w'.phase) == IsPastRename(w.phase)
               else p' == published + [Replacement(w.id, w.name)] && w.phase.Renaming? && IsPastRename(w'.phase)
  {
    hide TempName, StateFor, IsPortable;
  }

  lemma ReplacedNext(published: seq<Replacement>, next: Replacement)
    ensures forall i :: HasReplaced(published + [next], i) <==> HasReplaced(published, i) || i == next.writer
  {
    var all := published + [next];
    forall i
      ensures HasReplaced(all, i) <==> HasReplaced(published, i) || i == next.writer
    {
      if HasReplaced(published, i) {
        var k :| 0 <= k < |published| && published[k].writer == i;
        assert all[k].writer == i;
      }
      assert all[|published|] == next;
    }
  }

  lemma WriteIsAttributed(s: State, id: nat, reply: Reply)
    requires IsDir(s.dir) && IsAttributed(s)
    ensures IsAttributed(Next(s, Write(id, reply)))
  {
    hide WriterStep, IsPastRename;
    if id in s.writers {
      var w := s.writers[id];
      StepPublishes(s.dir, s.published, w, reply);
      var p' := WriterStep(s.dir, s.published, w, reply).1;
      if p' != s.published {
        ReplacedNext(s.published, Replacement(w.id, w.name));
        RenamingIsNotPast(w.phase);
        NotTwice(s.published, id);
        assert forall k :: 0 <= k < |s.published| ==> p'[k] == s.published[k];
        hide HasReplaced;
      }
    }
  }

  lemma RenamingIsNotPast(phase: WriterPhase)
    ensures phase.Renaming? ==> !IsPastRename(phase)
  {
  }

  lemma NotTwice(published: seq<Replacement>, id: nat)
    requires !HasReplaced(published, id)
    ensures forall k :: 0 <= k < |published| ==> published[k].writer != id
  {
  }

  lemma NextIsAttributed(s: State, a: Action)
    requires IsDir(s.dir) && IsAttributed(s)
    ensures IsAttributed(Next(s, a))
  {
    match a {
      case Write(id, reply) => WriteIsAttributed(s, id, reply);
      case StartWriter(id, name, pid) =>
        if id !in s.writers { assert !HasReplaced(s.published, id); }
      case _ =>
    }
    hide HasReplaced, IsPastRename, WriterStep, ReaderStep;
  }

  lemma {:induction false} RunIsAttributed(s: State, actions: seq<Action>)
    requires CanRun(s, actions) && IsAttributed(s)
    ensures IsAttributed(Run(s, actions))
    decreases |actions|
  {
    hide Next, IsAttributed;
    if actions != [] {
      NextIsAttributed(s, actions[0]);
      RunIsAttributed(Next(s, actions[0]), actions[1..]);
    }
  }

  /** Which writes have replaced the file: those that succeeded, and of those that failed exactly the
      ones whose failing call was the final fsync of the directory. None has done so twice. */
  lemma WritesArePublished(d0: Dir, actions: seq<Action>, id: nat)
    requires IsDir(d0) && CanRun(Initial(d0), actions) && id in Run(Initial(d0), actions).writers
    ensures var s := Run(Initial(d0), actions);
            var w := s.writers[id];
            && (w.phase.Succeeded? ==> HasReplaced(s.published, id))
            && (w.phase.Unsuccessful? ==> (HasReplaced(s.published, id) <==> w.phase.fault == AtDirectoryFsync))
            && (forall k :: 0 <= k < |s.published| && s.published[k].writer == id ==> s.published[k].name == w.name)
            && (forall j, k :: 0 <= j < k < |s.published| ==> s.published[j].writer != id || s.published[k].writer != id)
  {
    hide Run, CanRun, HasReplaced;
    assert IsAttributed(Initial(d0));
    RunIsAttributed(Initial(d0), actions);
  }

  /** A write that fails before it renames leaves the state file to the others: with no other write
      about, the file is the initial one. */
  lemma FailedWriteAlone(d0: Dir, actions: seq<Action>, id: nat)
    requires IsDir(d0) && CanRun(Initial(d0), actions) && Run(Initial(d0), actions).writers.Keys == {id}
    requires var p := Run(Initial(d0), actions).writers[id].phase; p.Unsuccessful? && p.fault != AtDirectoryFsync
    ensures var d := Run(Initial(d0), actions).dir;
            && IsDir(d) && (STATE in d.entries <==> STATE in d0.entries)
            && (STATE in d0.entries ==> d.files[d.entries[STATE]] == d0.files[d0.entries[STATE]])
  {
    hide Run, CanRun, HasReplaced;
    WritesArePublished(d0, actions, id);
    StateFileIsNeverTorn(d0, actions);
    var s := Run(Initial(d0), actions);
    assert IsAttributed(Initial(d0));
    RunIsAttributed(Initial(d0), actions);
    assert s.published != [] ==> s.published[0].writer in s.writers;
    NotTwice(s.published, id);
  }

  /* What is left in the directory. */

  /** The calls of a write in order: create, write, fsync, close, rename, fsync of the directory. */
  function Stage(phase: WriterPhase): int {
    match phase
    case Allocating(_) => 0
    case Writing(_, _, _) => 1
    case Syncing(_, _) => 2
    case Closing(_, _) => 3
    case Renaming(_, _) => 4
    case SyncingDirectory(_) => 5
    case Succeeded(_) => 6
    case _ => -1
  }

  predicate IsFaultOf(stage: int, fault: Fault) {
    match stage
    case 0 => fault == AtCreate || fault == NoFreeName
    case 1 => fault == AtWrite
    case 2 => fault == AtFsync
    case 3 => fault == AtClose
    case 4 => fault == AtRename
    case 5 => fault == AtDirectoryFsync
    case _ => false
  }

  /** A write makes its calls in that order and skips none: it goes on to the next only when the last has done all
      of its work, and one that fails is what the write reports, after an unlink if there is a temporary. */
  lemma CallsInOrder(d: Dir, published: seq<Replacement>, w: Writer, reply: Reply)
    requires IsDir(d) && WriterOk(d, published, w)
    ensures var (d', p', w') := WriterStep(d, published, w, reply);
            var stage := Stage(w.phase);
            && (0 <= stage < 6 ==>
                  || (w'.phase.Unsuccessful? && stage in {0, 5} && IsFaultOf(stage, w'.phase.fault))
                  || (w'.phase.Unlinking? && stage in {1, 2, 3, 4} && IsFaultOf(stage, w'.phase.after))
                  || (Stage(w'.phase) == stage && stage <= 1)
                  || (Stage(w'.phase) == stage + 1 && (stage == 1 ==> w.phase.rest == "")))
            && (reply.Failing? && 0 <= stage < 6 && !(stage == 1 && w.phase.rest == "") ==>
                  w'.phase.Unsuccessful? || w'.phase.Unlinking?)
            && (w.phase.Unlinking? ==> w'.phase == Unsuccessful(w.phase.after))
            && (Stage(w'.phase) == 5 && stage == 4 ==> STATE in d'.entries && d'.entries[STATE] == w.phase.file)
  {
    hide TempName, StateFor, IsPortable;
  }

  /** Every name is one that was there, the state file, or the temporary of a write that is not done with it. */
  ghost predicate IsTidy(d0: Dir, s: State) {
    forall n :: n in s.dir.entries ==>
      n == STATE || n in d0.entries || exists i :: i in s.writers && s.writers[i].phase.HasTemp() && s.writers[i].phase.temp == n
  }

  /** No write dies, and none fails to remove its temporary. */
  predicate IsGentle(s: State, a: Action) {
    match a
    case Kill(id) => id !in s.writers
    case Write(id, reply) => id in s.writers && s.writers[id].phase.Unlinking? ==> !reply.Failing?
    case _ => true
  }

  ghost predicate AreGentle(s: State, actions: seq<Action>)
    requires CanRun(s, actions)
    decreases |actions|
  {
    actions != [] ==> IsGentle(s, actions[0]) && AreGentle(Next(s, actions[0]), actions[1..])
  }

  /** A call adds no name but the writer's temporary and the state file, and drops only the temporary it is
      done with. */
  lemma StepIsTidy(d: Dir, published: seq<Replacement>, w: Writer, reply: Reply)
    requires IsDir(d) && (w.phase.Unlinking? ==> !reply.Failing?)
    ensures var (d', p', w') := WriterStep(d, published, w, reply);
            && (forall n :: n in d'.entries ==> n in d.entries || n == STATE || (w'.phase.HasTemp() && w'.phase.temp == n))
            && (w.phase.HasTemp() && w.phase.temp in d'.entries && w.phase.temp != STATE ==>
                  w'.phase.HasTemp() && w'.phase.temp == w.phase.temp)
  {
    hide TempName, StateFor, IsPortable;
  }

  lemma NextIsTidy(d0: Dir, s: State, a: Action)
    requires IsDir(s.dir) && IsTidy(d0, s) && IsGentle(s, a)
    ensures IsTidy(d0, Next(s, a))
  {
    hide WriterStep, ReaderStep, IsPortable;
    match a
    case Write(id, reply) =>
      if id in s.writers {
        StepIsTidy(s.dir, s.published, s.writers[id], reply);
        var s' := Next(s, a);
        forall n | n in s'.dir.entries && n != STATE && n !in d0.entries
          ensures exists i :: i in s'.writers && s'.writers[i].phase.HasTemp() && s'.writers[i].phase.temp == n
        {
          if n in s.dir.entries {
            var i :| i in s.writers && s.writers[i].phase.HasTemp() && s.writers[i].phase.temp == n;
            assert i in s'.writers && (i != id ==> s'.writers[i] == s.writers[i]);
            assert i == id ==> s'.writers[id].phase.HasTemp() && s'.writers[id].phase.temp == n;
          } else {
            assert s'.writers[id].phase.HasTemp() && s'.writers[id].phase.temp == n;
          }
        }
      }
    case StartWriter(id, name, pid) =>
      assert forall i :: i in s.writers ==> i in Next(s, a).writers && Next(s, a).writers[i] == s.writers[i];
    case _ =>
  }

  lemma {:induction false} RunIsTidy(d0: Dir, s: State, actions: seq<Action>)
    requires CanRun(s, actions) && AreGentle(s, actions) && IsTidy(d0, s)
    ensures IsTidy(d0, Run(s, actions))
    decreases |actions|
  {
    hide Next, IsTidy, IsGentle;
    if actions != [] {
      NextIsTidy(d0, s, actions[0]);
      RunIsTidy(d0, Next(s, actions[0]), actions[1..]);
    }
  }

  /** Writes clean up after themselves: if none has died or failed to remove its temporary, then, once all are
      done, whether they succeeded or failed, the directory holds no name but the old ones and state.toml. */
  lemma NoTemporaryIsLeft(d0: Dir, actions: seq<Action>)
    requires IsDir(d0) && CanRun(Initial(d0), actions) && AreGentle(Initial(d0), actions)
    requires var s := Run(Initial(d0), actions); forall i :: i in s.writers ==> !s.writers[i].phase.HasTemp()
    ensures Run(Initial(d0), actions).dir.entries.Keys <= d0.entries.Keys + {STATE}
  {
    assert IsTidy(d0, Initial(d0));
    hide Run, CanRun, AreGentle;
    RunIsTidy(d0, Initial(d0), actions);
  }

  lemma Peel(s: State, a: Action, rest: seq<Action>)
    requires IsDir(s.dir) && CanRun(Next(s, a), rest)
    ensures CanRun(s, [a] + rest) && Run(s, [a] + rest) == Run(Next(s, a), rest)
  {
    assert ([a] + rest)[1..] == rest;
  }

  const EMPTY_DIR := Dir(map[], map[], 0)

  /** The writer alone: one call and the state after it. */
  function Solo(dir: Dir, published: seq<Replacement>, w: Writer): State {
    State(dir, map[0 := w], map[], published)
  }

  lemma SoloStep(dir: Dir, published: seq<Replacement>, w: Writer, reply: Reply, rest: seq<Action>)
    requires IsDir(dir)
    requires var (d', p', w') := WriterStep(dir, published, w, reply); CanRun(Solo(d', p', w'), rest)
    ensures var (d', p', w') := WriterStep(dir, published, w, reply);
            && CanRun(Solo(dir, published, w), [Write(0, reply)] + rest)
            && Run(Solo(dir, published, w), [Write(0, reply)] + rest) == Run(Solo(d', p', w'), rest)
  {
    hide WriterStep, Run, CanRun;
    var (d', p', w') := WriterStep(dir, published, w, reply);
    assert Next(Solo(dir, published, w), Write(0, reply)) == Solo(d', p', w');
    Peel(Solo(dir, published, w), Write(0, reply), rest);
  }

  /** The calls of a write from its full temporary on, the last of which fails. */
  const LAST_CALL_FAILS :=
    [Write(0, Done)] + ([Write(0, Done)] + ([Write(0, Done)] + ([Write(0, Done)] + ([Write(0, Failing)] + []))))

  lemma LastCallFails(w: Writer, temp: string, file: File)
    requires w.phase == Writing(temp, 0, "") && temp != STATE
    ensures var s := Solo(Dir(map[temp := 0], map[0 := file], 1), [], w);
            && CanRun(s, LAST_CALL_FAILS)
            && Run(s, LAST_CALL_FAILS) == Solo(Dir(map[STATE := 0], map[0 := file], 1), [Replacement(w.id, w.name)],
                                               w.(phase := Unsuccessful(AtDirectoryFsync)))
  {
    var d, d' := Dir(map[temp := 0], map[0 := file], 1), Dir(map[STATE := 0], map[0 := file], 1);
    var log := [Replacement(w.id, w.name)];
    var r0: seq<Action> := [];
    var r1 := [Write(0, Failing)] + r0;
    var r2 := [Write(0, Done)] + r1;
    var r3 := [Write(0, Done)] + r2;
    var r4 := [Write(0, Done)] + r3;
    LastCalls(w, temp, file);
    assert CanRun(Solo(d', log, w.(phase := Unsuccessful(AtDirectoryFsync))), r0);
    hide Run, CanRun, WriterStep;
    SoloStep(d', log, w.(phase := SyncingDirectory(0)), Failing, r0);
    SoloStep(d, [], w.(phase := Renaming(temp, 0)), Done, r1);
    SoloStep(d, [], w.(phase := Closing(temp, 0)), Done, r2);
    SoloStep(d, [], w.(phase := Syncing(temp, 0)), Done, r3);
    SoloStep(d, [], w, Done, r4);
  }

  lemma LastCalls(w: Writer, temp: string, file: File)
    requires w.phase == Writing(temp, 0, "") && temp != STATE
    ensures var d, d' := Dir(map[temp := 0], map[0 := file], 1), Dir(map[STATE := 0], map[0 := file], 1);
            var log := [Replacement(w.id, w.name)];
            var syncing, closing := w.(phase := Syncing(temp, 0)), w.(phase := Closing(temp, 0));
            var renaming := w.(phase := Renaming(temp, 0));
            var last, failed := w.(phase := SyncingDirectory(0)), w.(phase := Unsuccessful(AtDirectoryFsync));
            && WriterStep(d, [], w, Done) == (d, [], syncing) && WriterStep(d, [], syncing, Done) == (d, [], closing)
            && WriterStep(d, [], closing, Done) == (d, [], renaming) && WriterStep(d, [], renaming, Done) == (d', log, last)
            && WriterStep(d', log, last, Failing) == (d', log, failed)
  {
    var d, d' := Dir(map[temp := 0], map[0 := file], 1), Dir(map[STATE := 0], map[0 := file], 1);
    assert [] + [Replacement(w.id, w.name)] == [Replacement(w.id, w.name)] && (d.entries - {temp})[STATE := 0] == d'.entries;
  }

  lemma FirstCalls(w: Writer, temp: string, text: string)
    requires w.phase == Allocating(0) && temp == TempName(w.pid, 0) && text == StateFor(w.name) && 0 < |text| <= STATE_LIMIT
    ensures var d1, d2 := Dir(map[temp := 0], map[0 := File("", true)], 1), Dir(map[temp := 0], map[0 := File(text, true)], 1);
            var w1, w2 := w.(phase := Writing(temp, 0, text)), w.(phase := Writing(temp, 0, ""));
            && WriterStep(EMPTY_DIR, [], w, Done) == (d1, [], w1)
            && WriterStep(d1, [], w1, Amount(STATE_LIMIT)) == (d2, [], w2)
  {
    hide TempName, StateFor;
    assert text[..|text|] == text && text[|text|..] == "" && "" + text == text;
    var d1 := Dir(map[temp := 0], map[0 := File("", true)], 1);
    assert EMPTY_DIR.entries[temp := 0] == d1.entries && EMPTY_DIR.files[0 := File("", true)] == d1.files;
    assert d1.files[0 := File(text, true)] == map[0 := File(text, true)];
  }

  /** A write of "a" whose last call fails has replaced the file all the same. */
  lemma FailedWriteCanReplace()
    ensures var actions := [StartWriter(0, "a", 1)] + ([Write(0, Done)] + ([Write(0, Amount(STATE_LIMIT))] + LAST_CALL_FAILS));
            && CanRun(Initial(EMPTY_DIR), actions)
            && var s := Run(Initial(EMPTY_DIR), actions);
               && 0 in s.writers && s.writers[0].phase == Unsuccessful(AtDirectoryFsync)
               && STATE in s.dir.entries && s.dir.entries[STATE] in s.dir.files
               && s.dir.files[s.dir.entries[STATE]] == File(StateFor("a"), true)
  {
    var temp, text, w := TempName(1, 0), StateFor("a"), Writer(0, "a", 1, Allocating(0));
    TempIsNotState(1, 0);
    assert text != "" && |text| <= STATE_LIMIT;
    assert Next(Initial(EMPTY_DIR), StartWriter(0, "a", 1)) == Solo(EMPTY_DIR, [], w);
    hide TempName, StateFor, Run, CanRun, WriterStep, Next;
    var rest := LAST_CALL_FAILS;
    FirstCalls(w, temp, text);
    LastCallFails(w.(phase := Writing(temp, 0, "")), temp, File(text, true));
    var d := Dir(map[temp := 0], map[0 := File("", true)], 1);
    SoloStep(d, [], w.(phase := Writing(temp, 0, text)), Amount(STATE_LIMIT), rest);
    SoloStep(EMPTY_DIR, [], w, Done, [Write(0, Amount(STATE_LIMIT))] + rest);
    Peel(Initial(EMPTY_DIR), StartWriter(0, "a", 1), [Write(0, Done)] + ([Write(0, Amount(STATE_LIMIT))] + rest));
  }

  /** The readers not in known opened the file, if at all, after m replacements. */
  predicate AreLater(s: State, known: set<nat>, m: nat) {
    forall r :: r in s.readers && r !in known ==> s.readers[r].Opening? || s.readers[r].since >= m
  }

  lemma NextKeepsLater(s: State, a: Action, known: set<nat>, m: nat)
    requires IsDir(s.dir) && m <= |s.published| && AreLater(s, known, m)
    ensures AreLater(Next(s, a), known, m)
  {
    hide TempName, StateFor, IsPortable, ParseState;
  }

  lemma {:induction false} RunKeepsLater(s: State, actions: seq<Action>, known: set<nat>, m: nat)
    requires CanRun(s, actions) && m <= |s.published| && AreLater(s, known, m)
    ensures AreLater(Run(s, actions), known, m)
    decreases |actions|
  {
    hide Next, AreLater;
    if actions != [] {
      NextPublishes(s, actions[0]);
      NextKeepsLater(s, actions[0], known, m);
      RunKeepsLater(Next(s, actions[0]), actions[1..], known, m);
    }
  }

  /** A completed write is always readable: any reader that starts after it, and finishes without a
      failed call whatever else happens meanwhile, reports its name or one published later. */
  lemma CompletedWriteIsRead(d0: Dir, before: seq<Action>, after: seq<Action>, writer: nat, reader: nat)
    requires IsDir(d0) && CanRun(Initial(d0), before)
    requires var s := Run(Initial(d0), before);
             && CanRun(s, after) && writer in s.writers && s.writers[writer].phase.Succeeded? && reader !in s.readers
    requires var s' := Run(Run(Initial(d0), before), after);
             reader in s'.readers && s'.readers[reader].Finished? && s'.readers[reader].outcome != InputError
    ensures var s, s' := Run(Initial(d0), before), Run(Run(Initial(d0), before), after);
            var k := s.writers[writer].phase.index;
            && k < |s'.published| && s'.published[k].name == s.writers[writer].name
            && exists i :: k <= i < |s'.published| && s'.readers[reader].outcome == Remembered(s'.published[i].name)
  {
    hide StateFor, ParseState, IsPortable, AreApart, IsUnread, Run, CanRun;
    InitialInvariant(d0);
    RunKeeps(d0, Initial(d0), before);
    var s := Run(Initial(d0), before);
    assert WriterOk(s.dir, s.published, s.writers[writer]);
    RunKeeps(d0, s, after);
    RunKeepsLater(s, after, s.readers.Keys, |s.published|);
    var s' := Run(s, after);
    var r := s'.readers[reader];
    assert ReaderOk(d0, s'.dir, s'.published, r);
    PortableReadsBack(s'.published[r.since - 1].name);
    assert s'.published[..|s.published|][s.writers[writer].phase.index].name == s.writers[writer].name;
  }
}
