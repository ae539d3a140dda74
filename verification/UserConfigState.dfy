/** Reading and replacing the remembered selection, and creating the default configuration, as one
    process runs them. Short transfers are chosen arbitrarily, and so is, for a device that may fail,
    which calls fail. */
module UserConfigState {

  import opened Wrappers
  import opened StateText
  import opened StateRace

  const CONFIG := "config.toml"

  /** What a read that meets no failing call reports. */
  function Observed(d: Dir): Outcome
    requires IsDir(d)
  {
    if STATE !in d.entries then Nothing
    else
      var f := d.files[d.entries[STATE]];
      if !f.isPrivate || |f.content| > STATE_LIMIT then Malformed else Parsed(f.content)
  }

  /** name refers to the same file in both, and the file has not changed. */
  predicate IsUnchangedAt(d: Dir, d': Dir, name: string)
    requires IsDir(d) && IsDir(d')
  {
    if name in d.entries
    then name in d'.entries && d'.entries[name] == d.entries[name] && d'.files[d.entries[name]] == d.files[d.entries[name]]
    else name !in d'.entries
  }

  lemma RememberedIsObserved(d: Dir, name: string)
    requires IsDir(d) && IsPortable(name) && STATE in d.entries && d.files[d.entries[STATE]] == File(StateFor(name), true)
    ensures Observed(d) == Remembered(name)
  {
    PortableReadsBack(name);
  }

  /** A name is reported exactly for a private file that holds the text of that name. */
  lemma ObservedExactly(d: Dir)
    requires IsDir(d)
    ensures Observed(d) == Nothing <==> STATE !in d.entries
    ensures forall name :: Observed(d) == Remembered(name) <==>
              IsPortable(name) && STATE in d.entries && d.files[d.entries[STATE]] == File(StateFor(name), true)
    ensures Observed(d) != InputError
  {
    hide IsPortable, StateFor, ParseState;
    if STATE in d.entries {
      var f := d.files[d.entries[STATE]];
      forall name
        ensures Observed(d) == Remembered(name) <==> IsPortable(name) && f == File(StateFor(name), true)
      {
        ReportExactly(f, name);
      }
    }
  }

  /** Success, or failure of the final fsync only. */
  predicate DidReplace(fault: Option<Fault>) {
    fault in {None, Some(AtDirectoryFsync)}
  }

  /** Some temporary name is free for the process. */
  ghost predicate HasFreeName(d: Dir, pid: nat) {
    exists k :: 0 <= k < ATTEMPTS && TempName(pid, k) !in d.entries
  }

  /* The system calls made, and whether they succeeded. A creation that finds its name taken is not one of
     them. */

  datatype Kind = CreateCall | WriteCall | FsyncCall | CloseCall | RenameCall | FsyncDirectoryCall | UnlinkCall

  datatype Call = Call(kind: Kind, ok: bool)

  /** n writes of a part each. */
  function Writes(n: nat): (w: seq<Call>)
    ensures |w| == n
  {
    seq(n, _ => Call(WriteCall, true))
  }

  /** The calls after the failed one: closing the file, whether that works or not, and removing it. */
  predicate IsCleanUp(calls: seq<Call>, failed: Call) {
    |calls| == 3 && calls[0] == failed && calls[1].kind == CloseCall && calls[2].kind == UnlinkCall
  }

  /** What FinishCreatedFile does once all is written or a write has failed. */
  predicate IsFinish(tail: seq<Call>, fault: Option<Fault>) {
    match fault
    case None => tail == [Call(FsyncCall, true), Call(CloseCall, true)]
    case Some(AtWrite) => IsCleanUp(tail, Call(WriteCall, false))
    case Some(AtFsync) => IsCleanUp(tail, Call(FsyncCall, false))
    case Some(AtClose) =>
      |tail| == 3 && tail[..2] == [Call(FsyncCall, true), Call(CloseCall, false)] && tail[2].kind == UnlinkCall
    case _ => false
  }

  /** What WriteRememberedEnvironment does once the name is found portable and free. */
  predicate IsReplacing(tail: seq<Call>, fault: Option<Fault>) {
    var synced := [Call(FsyncCall, true), Call(CloseCall, true)];
    match fault
    case None => tail == synced + [Call(RenameCall, true), Call(FsyncDirectoryCall, true)]
    case Some(AtDirectoryFsync) => tail == synced + [Call(RenameCall, true), Call(FsyncDirectoryCall, false)]
    case Some(AtRename) =>
      |tail| == 4 && tail[..3] == synced + [Call(RenameCall, false)] && tail[3].kind == UnlinkCall
    case _ => IsFinish(tail, fault)
  }

  class Directory {
    const mayFail: bool
    var dir: Dir
    ghost var calls: seq<Call>

    constructor (dir: Dir, mayFail: bool)
      ensures this.dir == dir && this.mayFail == mayFail && this.calls == []
    {
      this.dir, this.mayFail, this.calls := dir, mayFail, [];
    }

    /** The kernel's answer to a call. */
    method Answer(kind: Kind) returns (ok: bool)
      modifies this`calls
      ensures calls == old(calls) + [Call(kind, ok)]
      ensures !ok ==> mayFail
    {
      ok := *;
      ok := ok || !mayFail;
      calls := calls + [Call(kind, ok)];
    }

    /** O_CREAT | O_EXCL: a new, empty, private file. */
    method CreateExclusive(name: string) returns (file: Option<FileId>)
      requires IsDir(dir) && name !in dir.entries
      modifies this
      ensures IsDir(dir)
      ensures calls == old(calls) + [Call(CreateCall, file.Some?)]
      ensures file == None ==> mayFail && dir == old(dir)
      ensures file.Some? ==>
                && file.value == old(dir).next
                && dir == Dir(old(dir).entries[name := file.value], old(dir).files[file.value := File("", true)], file.value + 1)
    {
      var ok := Answer(CreateCall);
      if !ok { return None; }
      var id := dir.next;
      dir := Dir(dir.entries[name := id], dir.files[id := File("", true)], id + 1);
      return Some(id);
    }

    /** WriteAll. A call may write any nonempty part of what is left. */
    method WriteAll(file: FileId, contents: string) returns (ok: bool, ghost n: nat)
      requires IsDir(dir) && file in dir.files
      modifies this
      ensures IsDir(dir) && dir.entries == old(dir).entries && dir.next == old(dir).next
      ensures dir.files.Keys == old(dir).files.Keys
      ensures forall f :: f in dir.files && f != file ==> dir.files[f] == old(dir).files[f]
      ensures dir.files[file].isPrivate == old(dir).files[file].isPrivate
      ensures ok ==> dir.files[file].content == old(dir).files[file].content + contents
      ensures !ok ==> mayFail
      ensures calls == old(calls) + Writes(n) + if ok then [] else [Call(WriteCall, false)]
    {
      var text := contents;
      ghost var written := "";
      n := 0;
      while text != ""
        invariant IsDir(dir) && dir.entries == old(dir).entries && dir.next == old(dir).next
        invariant dir.files.Keys == old(dir).files.Keys
        invariant forall f :: f in dir.files && f != file ==> dir.files[f] == old(dir).files[f]
        invariant dir.files[file].isPrivate == old(dir).files[file].isPrivate
        invariant dir.files[file].content == old(dir).files[file].content + written
        invariant written + text == contents
        invariant calls == old(calls) + Writes(n)
        decreases |text|
      {
        ok := Answer(WriteCall);
        if !ok { return; }
        WriteAgain(old(calls), n);
        n := n + 1;
        var k :| 1 <= k <= |text|;
        var part := text[..k];
        dir := dir.(files := dir.files[file := dir.files[file].(content := dir.files[file].content + part)]);
        assert written + part + text[k..] == contents;
        assert old(dir).files[file].content + written + part == old(dir).files[file].content + (written + part);
        text, written := text[k..], written + part;
      }
      ok := true;
    }

    method Unlink(name: string) returns (ok: bool)
      requires IsDir(dir)
      modifies this
      ensures IsDir(dir)
      ensures dir == if ok then old(dir).(entries := old(dir).entries - {name}) else old(dir)
      ensures calls == old(calls) + [Call(UnlinkCall, ok)]
      ensures !ok ==> mayFail
    {
      ok := Answer(UnlinkCall);
      if ok {
        dir := dir.(entries := dir.entries - {name});
      }
    }

    /** FinishCreatedFile, on a file that has just been created under name. What failed is removed again,
        unless removing it fails too. */
    method FinishCreatedFile(file: FileId, name: string, contents: string)
      returns (fault: Option<Fault>, ghost n: nat, ghost tail: seq<Call>)
      requires IsDir(dir) && name in dir.entries && dir.entries[name] == file && dir.files[file] == File("", true)
      modifies this
      ensures IsDir(dir)
      ensures calls == old(calls) + Writes(n) + tail && IsFinish(tail, fault)
      ensures fault == None ==> dir == old(dir).(files := old(dir).files[file := File(contents, true)])
      ensures fault.Some? ==>
                && mayFail
                && dir.entries == (if tail[2].ok then old(dir).entries - {name} else old(dir).entries)
                && dir.files.Keys == old(dir).files.Keys
                && forall f :: f in dir.files && f != file ==> dir.files[f] == old(dir).files[f]
    {
      var ok;
      ok, n := WriteAll(file, contents);
      if !ok {
        var closed := Answer(CloseCall);
        var unlinked := Unlink(name);
        tail := [Call(WriteCall, false), Call(CloseCall, closed), Call(UnlinkCall, unlinked)];
        return Some(AtWrite), n, tail;
      }
      ok := Answer(FsyncCall);
      if !ok {
        var closed := Answer(CloseCall);
        var unlinked := Unlink(name);
        tail := [Call(FsyncCall, false), Call(CloseCall, closed), Call(UnlinkCall, unlinked)];
        return Some(AtFsync), n, tail;
      }
      ok := Answer(CloseCall);
      if !ok {
        var unlinked := Unlink(name);
        tail := [Call(FsyncCall, true), Call(CloseCall, false), Call(UnlinkCall, unlinked)];
        return Some(AtClose), n, tail;
      }
      assert "" + contents == contents;
      assert dir.files == old(dir).files[file := File(contents, true)];
      return None, n, [Call(FsyncCall, true), Call(CloseCall, true)];
    }

    /** The loop that finds a free temporary name and creates it. */
    method CreateTemporary(pid: nat) returns (r: Result<(string, FileId), Fault>)
      requires IsDir(dir)
      modifies this
      ensures IsDir(dir)
      ensures r.Ok? ==>
                var (temporary, file) := r.value;
                && temporary != STATE && temporary !in old(dir).entries && (exists k :: temporary == TempName(pid, k))
                && file == old(dir).next
                && dir == Dir(old(dir).entries[temporary := file], old(dir).files[file := File("", true)], file + 1)
      ensures r.Err? ==> dir == old(dir) && r.error in {NoFreeName, AtCreate} && (r.error == AtCreate ==> mayFail)
      ensures r == Err(NoFreeName) <==> !HasFreeName(old(dir), pid)
      ensures calls == old(calls) + if r == Err(NoFreeName) then [] else [Call(CreateCall, r.Ok?)]
    {
      hide TempName;
      var attempt := 0;
      var temporary := TempName(pid, attempt);
      while temporary in dir.entries
        invariant 0 <= attempt < ATTEMPTS && temporary == TempName(pid, attempt)
        invariant forall k :: 0 <= k < attempt ==> TempName(pid, k) in dir.entries
        decreases ATTEMPTS - attempt
      {
        attempt := attempt + 1;
        if attempt == ATTEMPTS { return Err(NoFreeName); }
        temporary := TempName(pid, attempt);
      }
      TempIsNotState(pid, attempt);
      var file := CreateExclusive(temporary);
      if file == None { return Err(AtCreate); }
      return Ok((temporary, file.value));
    }

    /** WriteRememberedEnvironment, once the state directory is prepared; the result is None on success.
        Whatever fails, every name but state.toml and its own temporary is left alone. state.toml is
        replaced by the complete new text if the write succeeds or only the final fsync of the directory
        fails, and untouched by every other failure; the new text is synchronised before it gets the name. */
    method WriteRemembered(name: string, pid: nat) returns (fault: Option<Fault>, ghost n: nat, ghost tail: seq<Call>)
      requires IsDir(dir)
      modifies this
      ensures IsDir(dir)
      ensures fault == Some(NotPortable) <==> !IsPortable(name)
      ensures fault == Some(NoFreeName) <==> IsPortable(name) && !HasFreeName(old(dir), pid)
      ensures fault in {Some(NotPortable), Some(NoFreeName), Some(AtCreate)} ==> dir == old(dir)
      ensures fault != Some(Unprepared)
      ensures fault !in {None, Some(NotPortable), Some(NoFreeName)} ==> mayFail
      // The calls it makes, in their order.
      ensures fault in {Some(NotPortable), Some(NoFreeName)} ==> calls == old(calls)
      ensures fault == Some(AtCreate) ==> calls == old(calls) + [Call(CreateCall, false)]
      ensures fault !in {Some(NotPortable), Some(NoFreeName), Some(AtCreate)} ==>
                calls == old(calls) + [Call(CreateCall, true)] + Writes(n) + tail && IsReplacing(tail, fault)
      ensures DidReplace(fault) ==>
                && IsPortable(name) && STATE in dir.entries && dir.files[dir.entries[STATE]] == File(StateFor(name), true)
                && Observed(dir) == Remembered(name)
                && forall n :: n != STATE ==> IsUnchangedAt(old(dir), dir, n)
      ensures !DidReplace(fault) ==>
                && (forall n :: n in old(dir).entries || n == STATE ==> IsUnchangedAt(old(dir), dir, n))
                && forall n :: n in dir.entries && n !in old(dir).entries ==> exists k :: n == TempName(pid, k)
      // A failed write leaves its temporary behind only if removing it fails.
      ensures fault in {Some(AtWrite), Some(AtFsync), Some(AtClose), Some(AtRename)} && tail[|tail| - 1].ok ==>
                dir.entries == old(dir).entries
    {
      hide TempName, StateFor, IsPortable, HasFreeName, Writes, IsUnchangedAt, Observed, IsFinish, IsReplacing;
      n, tail := 0, [];
      ghost var before := dir;
      Unchanged(dir);
      var portable := IsPortableName(name);
      if !portable { return Some(NotPortable), 0, []; }
      var created := CreateTemporary(pid);
      if created.Err? { return Some(created.error), 0, []; }
      var (temporary, file) := created.value;
      fault, n, tail := FinishCreatedFile(file, temporary, StateFor(name));
      if fault.Some? {
        FinishIsReplacing(tail, [], fault);
        NotReplaced(before, temporary, file, dir, tail[2].ok);
        return;
      }
      ghost var more;
      fault, more := Replace(temporary);
      FinishIsReplacing(tail, more, fault);
      CallsOneByOne(calls, old(calls) + [Call(CreateCall, true)] + Writes(n), tail, more);
      tail := tail + more;
      if DidReplace(fault) {
        Replaced(before, temporary, file, StateFor(name), dir);
        RememberedIsObserved(dir, name);
      } else {
        NotReplaced(before, temporary, file, dir, more[1].ok);
      }
    }

    /** Its last two calls: the rename and the fsync of the directory. */
    method Replace(temporary: string) returns (fault: Option<Fault>, ghost more: seq<Call>)
      requires IsDir(dir) && temporary in dir.entries && temporary != STATE
      modifies this
      ensures IsDir(dir) && dir.files == old(dir).files
      ensures fault.Some? ==> mayFail && fault.value in {AtRename, AtDirectoryFsync}
      ensures calls == old(calls) + more && more != []
      ensures if fault == Some(AtRename)
              then more[0] == Call(RenameCall, false) && |more| == 2 && more[1].kind == UnlinkCall
              else more == [Call(RenameCall, true), Call(FsyncDirectoryCall, fault == None)]
      ensures DidReplace(fault) ==> dir.entries == (old(dir).entries - {temporary})[STATE := old(dir).entries[temporary]]
      ensures !DidReplace(fault) ==>
                dir.entries == if more[1].ok then old(dir).entries - {temporary} else old(dir).entries
    {
      var ok := Answer(RenameCall);
      if !ok {
        var unlinked := Unlink(temporary);
        return Some(AtRename), [Call(RenameCall, false), Call(UnlinkCall, unlinked)];
      }
      dir := dir.(entries := (dir.entries - {temporary})[STATE := dir.entries[temporary]]);
      ok := Answer(FsyncDirectoryCall);
      return if ok then None else Some(AtDirectoryFsync), [Call(RenameCall, true), Call(FsyncDirectoryCall, ok)];
    }

    /** ReadRememberedEnvironment, once the directories are audited. */
    method ReadRemembered() returns (outcome: Outcome)
      requires IsDir(dir)
      ensures outcome == Observed(dir) || outcome == InputError
      ensures outcome == InputError ==> mayFail
      // Nothing only if there is no file, and a name only if the file is private and says exactly that.
      ensures outcome == Nothing ==> STATE !in dir.entries
      ensures forall name :: outcome == Remembered(name) ==>
                IsPortable(name) && STATE in dir.entries && dir.files[dir.entries[STATE]] == File(StateFor(name), true)
    {
      ObservedExactly(dir);
      hide ParseState, IsPortable, StateFor;
      if STATE !in dir.entries { return Nothing; }
      var failed := *;
      if mayFail && failed { return InputError; }
      var file := dir.files[dir.entries[STATE]];
      if !file.isPrivate || |file.content| > STATE_LIMIT { return Malformed; }
      var text := "";
      while |text| < |file.content|
        invariant text <= file.content
        decreases |file.content| - |text|
      {
        failed := *;
        if mayFail && failed { return InputError; }
        var count :| 1 <= count <= CHUNK && |text| + count <= |file.content|;
        if |text| + count > STATE_LIMIT { return Malformed; }
        assert text + file.content[|text|..|text| + count] == file.content[..|text| + count];
        text := text + file.content[|text|..|text| + count];
      }
      assert text == file.content;
      return Parsed(text);
    }

    /** EnsureDefaultConfig, once the configuration directory is prepared: an existing file, of
        whatever content, is never touched. */
    method EnsureDefaultConfig(template: string) returns (ok: bool, created: bool)
      requires IsDir(dir)
      modifies this
      ensures IsDir(dir)
      ensures CONFIG in old(dir).entries ==>
                && dir == old(dir) && !created && (ok <==> old(dir).files[old(dir).entries[CONFIG]].isPrivate)
                && calls == old(calls)
      ensures created ==> ok && CONFIG !in old(dir).entries && CONFIG in dir.entries
                          && dir.files[dir.entries[CONFIG]] == File(template, true)
      ensures created ==>
                exists n :: calls == old(calls) + [Call(CreateCall, true)] + Writes(n)
                                     + [Call(FsyncCall, true), Call(CloseCall, true), Call(FsyncDirectoryCall, true)]
      ensures ok ==> CONFIG in dir.entries && dir.files[dir.entries[CONFIG]].isPrivate
      ensures ok && !created ==> CONFIG in old(dir).entries
      ensures !ok && CONFIG !in old(dir).entries ==> mayFail
      // A file that was not finished is left behind only if removing it fails.
      ensures !ok && CONFIG !in old(dir).entries && CONFIG in dir.entries ==>
                calls != [] && calls[|calls| - 1] in {Call(UnlinkCall, false), Call(FsyncDirectoryCall, false)}
      ensures forall n :: n != CONFIG ==> IsUnchangedAt(old(dir), dir, n)
    {
      hide Writes;
      created := false;
      if CONFIG in dir.entries {
        return dir.files[dir.entries[CONFIG]].isPrivate, false;
      }
      var file := CreateExclusive(CONFIG);
      if file == None { return false, false; }
      var fault;
      ghost var n, tail;
      fault, n, tail := FinishCreatedFile(file.value, CONFIG, template);
      if fault.Some? { return false, false; }
      ok := Answer(FsyncDirectoryCall);
      return ok, ok;
    }
  }

  lemma Unchanged(d: Dir)
    requires IsDir(d)
    ensures forall n :: IsUnchangedAt(d, d, n)
  {
  }

  /** The directory after a write that has replaced state.toml. */
  lemma Replaced(d: Dir, temporary: string, file: FileId, text: string, d': Dir)
    requires IsDir(d) && IsDir(d') && temporary !in d.entries && temporary != STATE && file !in d.files
    requires d'.entries == (d.entries[temporary := file] - {temporary})[STATE := file]
    requires d'.files == d.files[file := File(text, true)]
    ensures d'.files[d'.entries[STATE]] == File(text, true)
    ensures forall n :: n != STATE ==> IsUnchangedAt(d, d', n)
  {
  }

  /** The directory after one that has not, and has removed its temporary or failed to. */
  lemma NotReplaced(d: Dir, temporary: string, file: FileId, d': Dir, removed: bool)
    requires IsDir(d) && IsDir(d') && temporary !in d.entries && temporary != STATE && file !in d.files
    requires d'.entries == if removed then d.entries[temporary := file] - {temporary} else d.entries[temporary := file]
    requires forall f :: f in d.files ==> f in d'.files && d'.files[f] == d.files[f]
    ensures forall n :: n in d.entries || n == STATE ==> IsUnchangedAt(d, d', n)
    ensures forall n :: n in d'.entries && n !in d.entries ==> n == temporary
    ensures removed ==> d'.entries == d.entries
  {
  }

  lemma FinishIsReplacing(tail: seq<Call>, more: seq<Call>, fault: Option<Fault>)
    requires if more == [] then fault.Some? && IsFinish(tail, fault) else IsFinish(tail, None)
    requires more != [] ==>
               if fault == Some(AtRename)
               then more[0] == Call(RenameCall, false) && |more| == 2 && more[1].kind == UnlinkCall
               else fault in {None, Some(AtDirectoryFsync)}
                    && more == [Call(RenameCall, true), Call(FsyncDirectoryCall, fault == None)]
    ensures IsReplacing(tail + more, fault) && (more == [] ==> IsReplacing(tail, fault) && |tail| == 3)
    ensures more != [] ==> |tail| == 2 && (tail + more)[|tail + more| - 1] == more[1]
  {
    if more == [] {
      assert tail + more == tail;
    }
  }

  lemma CallsOneByOne(calls: seq<Call>, before: seq<Call>, tail: seq<Call>, more: seq<Call>)
    requires calls == before + tail + more
    ensures calls == before + (tail + more)
  {
  }

  lemma WriteAgain(before: seq<Call>, n: nat)
    ensures before + Writes(n) + [Call(WriteCall, true)] == before + Writes(n + 1)
  {
    assert Writes(n + 1) == Writes(n) + [Call(WriteCall, true)];
  }
}
