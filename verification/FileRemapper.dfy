/** The two maps of remapped files, who owns the buffers in them, and how they
    go to disk and come back (FileRemapper.cpp). */
module FileRemapper {
  import opened Lines
  import opened RemapFile
  import opened Wrappers

  /** A memory buffer, told apart from others by its id. */
  datatype MemoryBuffer = MemoryBuffer(id: nat, content: string)

  datatype Target = FileTarget(file: FileEntry) | BufferTarget(buf: MemoryBuffer)

  datatype FileData = FileData(content: string, mtime: nat)

  type Mappings = map<FileEntry, Target>

  // ----- Invariants, as facts about values -----

  /** Whatever the reverse map knows is so. */
  ghost predicate Reverse(fromTo: Mappings, toFrom: map<FileEntry, FileEntry>) {
    forall n :: n in toFrom ==> toFrom[n] in fromTo && fromTo[toFrom[n]] == FileTarget(n)
  }

  /** The reverse map knows every target file. */
  ghost predicate Inverse(fromTo: Mappings, toFrom: map<FileEntry, FileEntry>) {
    forall f :: f in fromTo && fromTo[f].FileTarget? ==>
      fromTo[f].file in toFrom && toFrom[fromTo[f].file] == f
  }

  /** No two files share a target file. */
  ghost predicate UnsharedTargets(fromTo: Mappings) {
    forall f, g :: f in fromTo && g in fromTo && fromTo[f].FileTarget? && fromTo[f] == fromTo[g] ==> f == g
  }

  /** Every buffer that was handed over is either freed, once, or the target of
      exactly one file. */
  ghost predicate Owned(fromTo: Mappings, handed: set<nat>, freed: seq<nat>) {
    && (forall i, j :: 0 <= i < j < |freed| ==> freed[i] != freed[j])
    && (forall b :: b in handed <==> b in freed || HeldBy(fromTo, b))
    && (forall f :: f in fromTo && fromTo[f].BufferTarget? ==> fromTo[f].buf.id !in freed)
    && (forall f, g | f in fromTo && g in fromTo && fromTo[f].BufferTarget? && fromTo[g].BufferTarget? ::
          fromTo[f].buf.id == fromTo[g].buf.id ==> f == g)
  }

  ghost predicate HeldBy(fromTo: Mappings, b: nat) {
    exists f :: f in fromTo && fromTo[f].BufferTarget? && fromTo[f].buf.id == b
  }

  /** The maps without a file, after its target was reset. */
  function ResetReverse(fromTo: Mappings, toFrom: map<FileEntry, FileEntry>, f: FileEntry): map<FileEntry, FileEntry> {
    if f in fromTo && fromTo[f].FileTarget? then toFrom - {fromTo[f].file} else toFrom
  }

  function ResetFreed(fromTo: Mappings, freed: seq<nat>, f: FileEntry): seq<nat> {
    if f in fromTo && fromTo[f].BufferTarget? then freed + [fromTo[f].buf.id] else freed
  }

  /** The reverse map after a file got a new target. */
  function SetReverse(fromTo: Mappings, toFrom: map<FileEntry, FileEntry>, f: FileEntry, t: Target): map<FileEntry, FileEntry> {
    var toFrom' := ResetReverse(fromTo, toFrom, f);
    if t.FileTarget? then toFrom'[t.file := f] else toFrom'
  }

  lemma ResetKeepsReverse(fromTo: Mappings, toFrom: map<FileEntry, FileEntry>, f: FileEntry)
    requires Reverse(fromTo, toFrom)
    ensures Reverse(fromTo - {f}, ResetReverse(fromTo, toFrom, f))
  {
  }

  lemma ResetKeepsOwned(fromTo: Mappings, handed: set<nat>, freed: seq<nat>, f: FileEntry)
    requires Owned(fromTo, handed, freed)
    ensures Owned(fromTo - {f}, handed, ResetFreed(fromTo, freed, f))
  {
    var rest, freed' := fromTo - {f}, ResetFreed(fromTo, freed, f);
    forall b ensures b in handed <==> b in freed' || HeldBy(rest, b) {
      if HeldBy(fromTo, b) {
        var g :| g in fromTo && fromTo[g].BufferTarget? && fromTo[g].buf.id == b;
        assert g == f || g in rest;
      }
      if f in fromTo && fromTo[f].BufferTarget? {
        assert HeldBy(fromTo, fromTo[f].buf.id);
        assert freed'[|freed|] == fromTo[f].buf.id;
      }
      assert freed <= freed';
    }
  }

  lemma SetKeepsReverse(fromTo: Mappings, toFrom: map<FileEntry, FileEntry>, f: FileEntry, t: Target)
    requires Reverse(fromTo, toFrom)
    ensures Reverse(fromTo[f := t], SetReverse(fromTo, toFrom, f, t))
  {
    ResetKeepsReverse(fromTo, toFrom, f);
  }

  lemma SetFileKeepsOwned(fromTo: Mappings, handed: set<nat>, freed: seq<nat>, f: FileEntry, n: FileEntry)
    requires Owned(fromTo, handed, freed)
    ensures Owned(fromTo[f := FileTarget(n)], handed, ResetFreed(fromTo, freed, f))
  {
    ResetKeepsOwned(fromTo, handed, freed, f);
    var rest, after := fromTo - {f}, fromTo[f := FileTarget(n)];
    forall b ensures HeldBy(after, b) <==> HeldBy(rest, b) {
      if HeldBy(rest, b) {
        var g :| g in rest && rest[g].BufferTarget? && rest[g].buf.id == b;
        assert after[g] == rest[g];
      }
      if HeldBy(after, b) {
        var g :| g in after && after[g].BufferTarget? && after[g].buf.id == b;
        assert rest[g] == after[g];
      }
    }
  }

  lemma SetBufferKeepsOwned(fromTo: Mappings, handed: set<nat>, freed: seq<nat>, f: FileEntry, buf: MemoryBuffer)
    requires Owned(fromTo, handed, freed) && buf.id !in handed
    ensures Owned(fromTo[f := BufferTarget(buf)], handed + {buf.id}, ResetFreed(fromTo, freed, f))
  {
    ResetKeepsOwned(fromTo, handed, freed, f);
    var rest, after := fromTo - {f}, fromTo[f := BufferTarget(buf)];
    assert HeldBy(after, buf.id) by { assert after[f] == BufferTarget(buf); }
    forall b ensures HeldBy(after, b) <==> HeldBy(rest, b) || b == buf.id {
      if HeldBy(rest, b) {
        var g :| g in rest && rest[g].BufferTarget? && rest[g].buf.id == b;
        assert after[g] == rest[g];
      }
      if HeldBy(after, b) && b != buf.id {
        var g :| g in after && after[g].BufferTarget? && after[g].buf.id == b;
        assert rest[g] == after[g];
      }
    }
    forall g | g in rest && rest[g].BufferTarget? ensures rest[g].buf.id != buf.id {
      assert HeldBy(rest, rest[g].buf.id);
    }
  }

  /** What it takes for the reverse map to be a full inverse after f got a new
      target: it knew all other targets, and none of them is f's old or new one. */
  lemma SetInverseExactly(fromTo: Mappings, toFrom: map<FileEntry, FileEntry>, f: FileEntry, t: Target)
    requires Reverse(fromTo, toFrom)
    ensures Inverse(fromTo[f := t], SetReverse(fromTo, toFrom, f, t)) <==>
            forall g :: g in fromTo && g != f && fromTo[g].FileTarget? ==>
              && fromTo[g].file in toFrom && toFrom[fromTo[g].file] == g
              && fromTo[g] != t && !(f in fromTo && fromTo[f] == fromTo[g])
  {
    var after, reverse := fromTo[f := t], SetReverse(fromTo, toFrom, f, t);
    if Inverse(after, reverse) {
      forall g | g in fromTo && g != f && fromTo[g].FileTarget?
        ensures fromTo[g].file in toFrom && toFrom[fromTo[g].file] == g
        ensures fromTo[g] != t && !(f in fromTo && fromTo[f] == fromTo[g])
      {
        assert after[g] == fromTo[g];
      }
    }
  }

  /** From a full inverse one comes to a full inverse exactly if no target is
      shared then. */
  lemma SetKeepsInverse(fromTo: Mappings, toFrom: map<FileEntry, FileEntry>, f: FileEntry, t: Target)
    requires Reverse(fromTo, toFrom) && Inverse(fromTo, toFrom)
    ensures Inverse(fromTo[f := t], SetReverse(fromTo, toFrom, f, t)) <==> UnsharedTargets(fromTo[f := t])
  {
    SetInverseExactly(fromTo, toFrom, f, t);
    var after := fromTo[f := t];
    if UnsharedTargets(after) {
      forall g | g in fromTo && g != f && fromTo[g].FileTarget?
        ensures fromTo[g] != t && !(f in fromTo && fromTo[f] == fromTo[g])
      {
        assert after[g] != after[f];
      }
    }
  }

  lemma SetAgain(fromTo: Mappings, f: FileEntry, t: Target)
    ensures (fromTo - {f})[f := t] == fromTo[f := t]
  {
  }

  // ----- All reachable states -----

  datatype Maps = Maps(fromTo: Mappings, toFrom: map<FileEntry, FileEntry>)

  /** All that ever happens to the two maps. */
  datatype Call = SetTarget(file: FileEntry, target: Target) | ClearAll

  function AfterCalls(calls: seq<Call>): Maps {
    if calls == [] then Maps(map[], map[])
    else
      var before := AfterCalls(calls[..|calls| - 1]);
      match calls[|calls| - 1]
      case SetTarget(f, t) => Maps(before.fromTo[f := t], SetReverse(before.fromTo, before.toFrom, f, t))
      case ClearAll => Maps(map[], map[])
  }

  lemma {:induction false} ReverseOverRuns(calls: seq<Call>)
    ensures Reverse(AfterCalls(calls).fromTo, AfterCalls(calls).toFrom)
  {
    if calls != [] {
      var front, last := calls[..|calls| - 1], calls[|calls| - 1];
      ReverseOverRuns(front);
      if last.SetTarget? {
        SetKeepsReverse(AfterCalls(front).fromTo, AfterCalls(front).toFrom, last.file, last.target);
      }
    }
  }

  ghost predicate AlwaysInverse(calls: seq<Call>) {
    forall k :: 0 <= k <= |calls| ==> Inverse(AfterCalls(calls[..k]).fromTo, AfterCalls(calls[..k]).toFrom)
  }

  ghost predicate NeverShared(calls: seq<Call>) {
    forall k :: 0 <= k <= |calls| ==> UnsharedTargets(AfterCalls(calls[..k]).fromTo)
  }

  /** In every state of a run the reverse map is a full inverse, exactly if no
      state of the run has a shared target. */
  lemma {:induction false} InverseOverRuns(calls: seq<Call>)
    ensures AlwaysInverse(calls) <==> NeverShared(calls)
  {
    assert calls[..|calls|] == calls;
    if calls != [] {
      var front, last := calls[..|calls| - 1], calls[|calls| - 1];
      InverseOverRuns(front);
      assert forall k :: 0 <= k <= |front| ==> calls[..k] == front[..k];
      assert front[..|front|] == front;
      ReverseOverRuns(front);
      if AlwaysInverse(front) && last.SetTarget? {
        SetKeepsInverse(AfterCalls(front).fromTo, AfterCalls(front).toFrom, last.file, last.target);
      }
      assert AlwaysInverse(calls) <==> AlwaysInverse(front) && Inverse(AfterCalls(calls).fromTo, AfterCalls(calls).toFrom);
      assert NeverShared(calls) <==> NeverShared(front) && UnsharedTargets(AfterCalls(calls).fromTo);
    }
  }

  // ----- What flushing and reading leave -----

  function AsTargets(m: map<FileEntry, FileEntry>): Mappings {
    map f | f in m :: FileTarget(m[f])
  }

  /** The operating system names a new temporary file for every buffer. */
  ghost predicate NewNames(fromTo: Mappings, temps: map<FileEntry, Path>, taken: set<Path>) {
    && (forall f :: f in fromTo && fromTo[f].BufferTarget? ==> f in temps && temps[f] !in taken)
    && (forall f, g | f in fromTo && g in fromTo && fromTo[f].BufferTarget? && fromTo[g].BufferTarget? ::
          temps[f] == temps[g] ==> f == g)
  }

  /** Where every file's new contents are after a flush at time `now`. */
  function Flushed(fromTo: Mappings, temps: map<FileEntry, Path>, now: nat): map<FileEntry, FileEntry>
    requires forall f :: f in fromTo && fromTo[f].BufferTarget? ==> f in temps
  {
    map f | f in fromTo :: match fromTo[f] case FileTarget(file) => file case BufferTarget(_) => FileEntry(temps[f], now)
  }

  /** The mappings when some of the files are flushed. */
  function PartlyFlushed(fromTo: Mappings, flushed: map<FileEntry, FileEntry>, todo: set<FileEntry>): Mappings
    requires fromTo.Keys <= flushed.Keys
  {
    map f | f in fromTo :: if f in todo then fromTo[f] else FileTarget(flushed[f])
  }

  /** Where the flushing loop stands: maps and text. */
  ghost predicate Flushing(was: Mappings, temps: map<FileEntry, Path>, now: nat, todo: set<FileEntry>,
                           order: seq<FileEntry>, fromTo: Mappings, text: string) {
    && (forall f :: f in was && was[f].BufferTarget? ==> f in temps)
    && fromTo == PartlyFlushed(was, Flushed(was, temps, now), todo)
    && (forall f :: f in order <==> f in was && f !in todo)
    && text == JoinLines(Records(order, Flushed(was, temps, now)))
  }

  /** Where the flushing loop stands: files. */
  ghost predicate FlushingDisk(was: Mappings, temps: map<FileEntry, Path>, now: nat, todo: set<FileEntry>,
                               files0: map<Path, FileData>, files: map<Path, FileData>, view: View) {
    && (forall f :: f in was && was[f].BufferTarget? ==> f in temps)
    && (forall f :: f in todo && f in was && was[f].BufferTarget? ==> temps[f] !in view)
    && (forall p :: p in files ==> p in view)
    && (forall f :: f in was && f !in todo && was[f].BufferTarget? ==>
          temps[f] in files && files[temps[f]] == FileData(was[f].buf.content, now))
    && (forall p :: p in files0 ==> p in files && files[p] == files0[p])
    && (forall f, g | f in was && g in was && was[f].BufferTarget? && was[g].BufferTarget? ::
          temps[f] == temps[g] ==> f == g)
  }

  lemma FlushStep(was: Mappings, temps: map<FileEntry, Path>, now: nat, todo: set<FileEntry>,
                  order: seq<FileEntry>, fromTo: Mappings, text: string, f: FileEntry)
    requires Flushing(was, temps, now, todo, order, fromTo, text) && f in todo && f in was
    ensures f in fromTo && fromTo[f] == was[f]
    ensures var n := Flushed(was, temps, now)[f];
            Flushing(was, temps, now, todo - {f}, order + [f], if was[f].FileTarget? then fromTo else fromTo[f := FileTarget(n)],
                     text + RecordText(f, n))
  {
    RecordAppended(order, f, Flushed(was, temps, now));
  }

  lemma FlushDiskStep(was: Mappings, temps: map<FileEntry, Path>, now: nat, todo: set<FileEntry>,
                      files0: map<Path, FileData>, files: map<Path, FileData>, view: View, f: FileEntry)
    requires FlushingDisk(was, temps, now, todo, files0, files, view) && f in todo && f in was
    ensures was[f].FileTarget? ==> FlushingDisk(was, temps, now, todo - {f}, files0, files, view)
    ensures was[f].BufferTarget? ==>
              && temps[f] !in view
              && FlushingDisk(was, temps, now, todo - {f}, files0, files[temps[f] := FileData(was[f].buf.content, now)],
                              view[temps[f] := FileEntry(temps[f], now)])
  {
  }

  lemma FlushDone(was: Mappings, temps: map<FileEntry, Path>, now: nat, order: seq<FileEntry>, fromTo: Mappings,
                  text: string, files0: map<Path, FileData>, files: map<Path, FileData>, view: View)
    requires Flushing(was, temps, now, {}, order, fromTo, text)
    requires FlushingDisk(was, temps, now, {}, files0, files, view)
    ensures fromTo == AsTargets(Flushed(was, temps, now))
    ensures forall f :: f in order <==> f in was
    ensures text == JoinLines(Records(order, Flushed(was, temps, now)))
    ensures forall f :: f in was && was[f].BufferTarget? ==>
              temps[f] in files && files[temps[f]] == FileData(was[f].buf.content, now)
    ensures forall p :: p in files0 ==> p in files && files[p] == files0[p]
  {
  }

  // ----- The remapper -----

  class Disk {
    var files: map<Path, FileData>

    constructor (files: map<Path, FileData>)
      ensures this.files == files
    {
      this.files := files;
    }
  }

  class FileRemapper {
    const disk: Disk
    /** The entries the file manager has handed out. */
    var FileMgr: map<Path, FileEntry>
    var FromToMappings: Mappings
    var ToFromMappings: map<FileEntry, FileEntry>
    /** The buffers deleted so far, in order. */
    var freed: seq<nat>
    /** The buffers this object was given. */
    ghost var handed: set<nat>

    constructor (disk: Disk)
      ensures this.disk == disk && Valid()
      ensures FileMgr == map[] && FromToMappings == map[] && ToFromMappings == map[] && handed == {} && freed == []
    {
      this.disk := disk;
      FileMgr := map[];
      FromToMappings := map[];
      ToFromMappings := map[];
      handed := {};
      freed := [];
    }

    ghost predicate Valid()
      reads this
    {
      && (forall p :: p in FileMgr ==> FileMgr[p].name == p)
      && Reverse(FromToMappings, ToFromMappings)
      && Owned(FromToMappings, handed, freed)
    }

    ghost predicate FullInverse()
      reads this
    {
      Inverse(FromToMappings, ToFromMappings)
    }

    /** The files as the file manager shows them: an entry once handed out stays. */
    function Files(): View
      reads this, disk
    {
      (map p | p in disk.files :: FileEntry(p, disk.files[p].mtime)) + FileMgr
    }

    method GetFile(path: Path) returns (file: Option<FileEntry>)
      requires Valid()
      modifies this`FileMgr
      ensures Valid() && Files() == old(Files())
      ensures file == if path in Files() then Some(Files()[path]) else None
    {
      if path in FileMgr {
        return Some(FileMgr[path]);
      }
      if path !in disk.files {
        return None;
      }
      var entry := FileEntry(path, disk.files[path].mtime);
      FileMgr := FileMgr[path := entry];
      return Some(entry);
    }

    /** The file has no target afterwards. */
    method ResetTarget(file: FileEntry)
      requires Valid()
      modifies this
      ensures Valid() && FileMgr == old(FileMgr) && handed == old(handed)
      ensures FromToMappings == old(FromToMappings) - {file}
      ensures ToFromMappings == ResetReverse(old(FromToMappings), old(ToFromMappings), file)
      ensures freed == ResetFreed(old(FromToMappings), old(freed), file)
      ensures old(FullInverse()) ==> FullInverse()
    {
      if file !in FromToMappings {
        assert FromToMappings - {file} == FromToMappings;
        return;
      }
      ResetKeepsReverse(FromToMappings, ToFromMappings, file);
      ResetKeepsOwned(FromToMappings, handed, freed, file);
      match FromToMappings[file] {
        case BufferTarget(buf) => freed := freed + [buf.id];
        case FileTarget(toFE) => ToFromMappings := ToFromMappings - {toFE};
      }
      FromToMappings := FromToMappings - {file};
    }

    method RemapToBuffer(file: FileEntry, memBuf: MemoryBuffer)
      requires Valid() && memBuf.id !in handed
      modifies this
      ensures Valid() && FileMgr == old(FileMgr)
      ensures FromToMappings == old(FromToMappings)[file := BufferTarget(memBuf)]
      ensures ToFromMappings == SetReverse(old(FromToMappings), old(ToFromMappings), file, BufferTarget(memBuf))
      ensures handed == old(handed) + {memBuf.id}
      ensures freed == ResetFreed(old(FromToMappings), old(freed), file)
      ensures old(FullInverse()) ==> FullInverse()
    {
      SetKeepsReverse(FromToMappings, ToFromMappings, file, BufferTarget(memBuf));
      SetBufferKeepsOwned(FromToMappings, handed, freed, file, memBuf);
      ResetTarget(file);
      assert FromToMappings[file := BufferTarget(memBuf)] == old(FromToMappings)[file := BufferTarget(memBuf)];
      FromToMappings := FromToMappings[file := BufferTarget(memBuf)];
      handed := handed + {memBuf.id};
    }

    method RemapToFile(file: FileEntry, newfile: FileEntry)
      requires Valid()
      modifies this
      ensures Valid() && FileMgr == old(FileMgr) && handed == old(handed)
      ensures FromToMappings == old(FromToMappings)[file := FileTarget(newfile)]
      ensures ToFromMappings == SetReverse(old(FromToMappings), old(ToFromMappings), file, FileTarget(newfile))
      ensures freed == ResetFreed(old(FromToMappings), old(freed), file)
      ensures old(FullInverse()) ==> (FullInverse() <==> UnsharedTargets(FromToMappings))
    {
      SetKeepsReverse(FromToMappings, ToFromMappings, file, FileTarget(newfile));
      SetFileKeepsOwned(FromToMappings, handed, freed, file, newfile);
      if FullInverse() { SetKeepsInverse(FromToMappings, ToFromMappings, file, FileTarget(newfile)); }
      SetAgain(FromToMappings, file, FileTarget(newfile));
      ResetTarget(file);
      FromToMappings := FromToMappings[file := FileTarget(newfile)];
      ToFromMappings := ToFromMappings[newfile := file];
    }

    /** For a file that overrides another one, that other one. */
    method GetOriginalFile(path: Path) returns (file: Option<FileEntry>)
      requires Valid()
      modifies this`FileMgr
      ensures Valid() && Files() == old(Files())
      ensures file == if path !in Files() then None else Some(OriginalOf(Files()[path]))
      ensures file.Some? && Files()[path] in ToFromMappings ==> FromToMappings[file.value] == FileTarget(Files()[path])
    {
      file := GetFile(path);
      if file.Some? && file.value in ToFromMappings {
        file := Some(ToFromMappings[file.value]);
        assert file.value in FromToMappings;
      }
    }

    function OriginalOf(file: FileEntry): FileEntry
      reads this
    {
      if file in ToFromMappings then ToFromMappings[file] else file
    }

    /** Remapping a path. A path that overrides an original file updates that
        original's entry. */
    method Remap(path: Path, memBuf: MemoryBuffer)
      requires Valid() && memBuf.id !in handed && path in Files()
      modifies this
      ensures Valid() && Files() == old(Files())
      ensures FromToMappings == old(FromToMappings)[old(OriginalOf(Files()[path])) := BufferTarget(memBuf)]
      ensures handed == old(handed) + {memBuf.id}
    {
      var file := GetOriginalFile(path);
      RemapToBuffer(file.value, memBuf);
    }

    /** Resets all targets. Afterwards the reverse map is empty and every buffer
        that was ever handed over has been freed exactly once. */
    method Clear()
      requires Valid()
      modifies this
      ensures Valid() && FileMgr == old(FileMgr) && handed == old(handed)
      ensures FromToMappings == map[] && ToFromMappings == map[]
      ensures (set b | b in freed) == handed
      ensures forall i, j :: 0 <= i < j < |freed| ==> freed[i] != freed[j]
    {
      while FromToMappings != map[]
        invariant Valid() && FileMgr == old(FileMgr) && handed == old(handed)
        decreases |FromToMappings|
      {
        var f :| f in FromToMappings;
        ResetTarget(f);
      }
      assert forall b :: !HeldBy(FromToMappings, b);
    }

    /** Moves the contents of a buffer to a new temporary file, and the file's
        target with it. */
    method FlushBuffer(file: FileEntry, buf: MemoryBuffer, temp: Path, now: nat)
      requires Valid() && file in FromToMappings && FromToMappings[file] == BufferTarget(buf) && temp !in Files()
      modifies this, disk
      ensures Valid() && handed == old(handed)
      ensures disk.files == old(disk.files)[temp := FileData(buf.content, now)]
      ensures FromToMappings == old(FromToMappings)[file := FileTarget(FileEntry(temp, now))]
      ensures Files() == old(Files())[temp := FileEntry(temp, now)]
    {
      disk.files := disk.files[temp := FileData(buf.content, now)];
      assert Files() == old(Files())[temp := FileEntry(temp, now)];
      var newE := GetFile(temp);
      RemapToFile(file, newE.value);
    }

    /** One turn of the flushing loop: the three lines for a file. */
    method FlushEntry(f: FileEntry, temps: map<FileEntry, Path>, now: nat) returns (record: string)
      requires Valid() && f in FromToMappings
      requires FromToMappings[f].BufferTarget? ==> f in temps && temps[f] !in Files()
      modifies this, disk
      ensures Valid() && handed == old(handed)
      ensures old(FromToMappings)[f].FileTarget? ==>
                && FromToMappings == old(FromToMappings) && disk.files == old(disk.files) && Files() == old(Files())
                && record == RecordText(f, old(FromToMappings)[f].file)
      ensures old(FromToMappings)[f].BufferTarget? ==>
                var n := FileEntry(temps[f], now);
                && FromToMappings == old(FromToMappings)[f := FileTarget(n)]
                && disk.files == old(disk.files)[temps[f] := FileData(old(FromToMappings)[f].buf.content, now)]
                && Files() == old(Files())[temps[f] := n]
                && record == RecordText(f, n)
    {
      record := f.name + "\n" + Decimal(f.mtime) + "\n";
      match FromToMappings[f]
      case FileTarget(file) =>
        record := record + file.name + "\n";
      case BufferTarget(buf) =>
        FlushBuffer(f, buf, temps[f], now);
        record := record + temps[f] + "\n";
    }

    /** Writes the remap file. Buffers become temporary files on the way. `order`
        is the order in which the hash table is walked. */
    method FlushToFile(outputPath: Path, temps: map<FileEntry, Path>, now: nat) returns (ghost order: seq<FileEntry>)
      requires Valid() && NewNames(FromToMappings, temps, Files().Keys + {outputPath})
      modifies this, disk
      ensures Valid() && handed == old(handed)
      ensures FromToMappings == AsTargets(Flushed(old(FromToMappings), temps, now))
      ensures forall f :: f in order <==> f in old(FromToMappings)
      ensures outputPath in disk.files && disk.files[outputPath].content ==
              JoinLines(Records(order, Flushed(old(FromToMappings), temps, now)))
      ensures forall f :: f in old(FromToMappings) && old(FromToMappings)[f].BufferTarget? ==>
                temps[f] in disk.files && disk.files[temps[f]] == FileData(old(FromToMappings)[f].buf.content, now)
      ensures forall p :: p in old(disk.files) && p != outputPath ==> p in disk.files && disk.files[p] == old(disk.files)[p]
    {
      ghost var was, files0 := FromToMappings, disk.files;
      var infoOut;
      infoOut, order := FlushEntries(temps, now);
      FlushDone(was, temps, now, order, FromToMappings, infoOut, files0, disk.files, Files());
      disk.files := disk.files[outputPath := FileData(infoOut, now)];
    }

    method FlushEntries(temps: map<FileEntry, Path>, now: nat) returns (infoOut: string, ghost order: seq<FileEntry>)
      requires Valid() && NewNames(FromToMappings, temps, Files().Keys)
      modifies this, disk
      ensures Valid() && handed == old(handed)
      ensures Flushing(old(FromToMappings), temps, now, {}, order, FromToMappings, infoOut)
      ensures FlushingDisk(old(FromToMappings), temps, now, {}, old(disk.files), disk.files, Files())
    {
      ghost var was, files0 := FromToMappings, disk.files;
      infoOut := "";
      order := [];
      var todo := FromToMappings.Keys;
      while todo != {}
        invariant Valid() && handed == old(handed) && todo <= was.Keys
        invariant Flushing(was, temps, now, todo, order, FromToMappings, infoOut)
        invariant FlushingDisk(was, temps, now, todo, files0, disk.files, Files())
        decreases todo
      {
        var f :| f in todo;
        infoOut := FlushNext(f, infoOut, temps, now, was, todo, order, files0);
        order := order + [f];
        todo := todo - {f};
      }
    }

    /** The loop body. */
    method FlushNext(f: FileEntry, text: string, temps: map<FileEntry, Path>, now: nat,
                     ghost was: Mappings, ghost todo: set<FileEntry>, ghost order: seq<FileEntry>, ghost files0: map<Path, FileData>)
      returns (infoOut: string)
      requires Valid() && f in todo && f in was
      requires Flushing(was, temps, now, todo, order, FromToMappings, text)
      requires FlushingDisk(was, temps, now, todo, files0, disk.files, Files())
      modifies this, disk
      ensures Valid() && handed == old(handed)
      ensures Flushing(was, temps, now, todo - {f}, order + [f], FromToMappings, infoOut)
      ensures FlushingDisk(was, temps, now, todo - {f}, files0, disk.files, Files())
    {
      FlushStep(was, temps, now, todo, order, FromToMappings, text, f);
      FlushDiskStep(was, temps, now, todo, files0, disk.files, Files(), f);
      var record := FlushEntry(f, temps, now);
      return text + record;
    }

    /** Reads a remap file into an empty remapper. Returns true on an error, and
        then nothing has been remapped. */
    method InitFromFile(path: Path, ignoreIfFilesChanged: bool) returns (err: bool)
      requires Valid() && FromToMappings == map[]
      modifies this
      ensures Valid() && Files() == old(Files())
      ensures path !in disk.files ==> !err && FromToMappings == map[]
      ensures path in disk.files ==>
                var parsed := ParsePairs(SplitLines(disk.files[path].content), Files(), ignoreIfFilesChanged);
                && (err <==> parsed.None?)
                && FromToMappings == if err then map[] else AsTargets(MapOf(parsed.value))
    {
      if path !in disk.files {
        return false;
      }
      var pairs;
      err, pairs := ReadPairs(SplitLines(disk.files[path].content), ignoreIfFilesChanged);
      if err {
        return;
      }
      RemapPairs(pairs);
    }

    /** The second loop of reading. */
    method RemapPairs(pairs: seq<(FileEntry, FileEntry)>)
      requires Valid() && FromToMappings == map[]
      modifies this
      ensures Valid() && FileMgr == old(FileMgr)
      ensures FromToMappings == AsTargets(MapOf(pairs))
    {
      assert pairs[..0] == [];
      for i := 0 to |pairs|
        invariant Valid() && FileMgr == old(FileMgr)
        invariant FromToMappings == AsTargets(MapOf(pairs[..i]))
      {
        assert pairs[..i + 1][..i] == pairs[..i];
        RemapToFile(pairs[i].0, pairs[i].1);
      }
      assert pairs[..|pairs|] == pairs;
    }

    /** The first loop of reading: collects the pairs before anything is remapped. */
    method ReadPairs(lines: seq<string>, ignoreIfFilesChanged: bool) returns (err: bool, pairs: seq<(FileEntry, FileEntry)>)
      requires Valid()
      modifies this`FileMgr
      ensures Valid() && Files() == old(Files())
      ensures var parsed := ParsePairs(lines, Files(), ignoreIfFilesChanged);
              (err <==> parsed.None?) && (!err ==> pairs == parsed.value)
    {
      ghost var view := Files();
      pairs := [];
      var idx := 0;
      assert lines[idx..] == lines;
      AfterNothing(ParsePairs(lines, view, ignoreIfFilesChanged));
      while idx + 3 <= |lines|
        invariant Valid() && Files() == view && idx <= |lines|
        invariant ParsePairs(lines, view, ignoreIfFilesChanged) == After(pairs, ParsePairs(lines[idx..], view, ignoreIfFilesChanged))
        decreases |lines| - idx
      {
        assert lines[idx..][3..] == lines[idx + 3..];
        var bad, timeModified := GetAsUnsignedInteger(lines[idx + 1]);
        if bad {
          return true, pairs;
        }
        var found := FindPair(lines[idx], timeModified, lines[idx + 2]);
        if found.Some? {
          AfterPair(pairs, found.value, ParsePairs(lines[idx + 3..], view, ignoreIfFilesChanged));
          pairs := pairs + [found.value];
        } else if !ignoreIfFilesChanged {
          return true, pairs;
        }
        idx := idx + 3;
      }
      assert pairs + [] == pairs;
      return false, pairs;
    }

    /** The checks on one pair of the remap file: the original, then the new
        file, then the modification time. */
    method FindPair(from: Path, timeModified: nat, to: Path) returns (pair: Option<(FileEntry, FileEntry)>)
      requires Valid()
      modifies this`FileMgr
      ensures Valid() && Files() == old(Files())
      ensures pair == if GoodPair(Files(), from, timeModified, to) then Some((Files()[from], Files()[to])) else None
    {
      var origFE := GetFile(from);
      if origFE.None? {
        return None;
      }
      var newFE := GetFile(to);
      if newFE.None? || origFE.value.mtime != timeModified {
        return None;
      }
      return Some((origFE.value, newFE.value));
    }
  }

  // ----- Whole runs -----

  /** Flushing a remapper and reading the file with a new one restores the same
      mapping, as long as no file was touched in between. */
  method FlushAndReload(remapper: FileRemapper, outputPath: Path, temps: map<FileEntry, Path>, now: nat)
    returns (reread: FileRemapper, err: bool)
    requires remapper.Valid()
    requires NewNames(remapper.FromToMappings, temps, remapper.Files().Keys + {outputPath})
    requires Printable(Flushed(remapper.FromToMappings, temps, now))
    requires AllUntouched(remapper.disk.files, outputPath, remapper.FromToMappings)
    modifies remapper, remapper.disk
    ensures !err && reread.Valid()
    ensures reread.FromToMappings == remapper.FromToMappings
  {
    ghost var was, files0 := remapper.FromToMappings, remapper.disk.files;
    ghost var order := remapper.FlushToFile(outputPath, temps, now);
    StillUntouched(files0, remapper.disk.files, outputPath, was);
    reread := new FileRemapper(remapper.disk);
    ReloadGivesFlushed(was, temps, now, outputPath, remapper.disk.files, reread.Files(), order);
    err := reread.InitFromFile(outputPath, false);
  }

  /** The file is on disk, as it was when its entry was made. */
  predicate Untouched(files: map<Path, FileData>, outputPath: Path, f: FileEntry) {
    f.name != outputPath && f.name in files && files[f.name].mtime == f.mtime
  }

  predicate AllUntouched(files: map<Path, FileData>, outputPath: Path, fromTo: Mappings) {
    forall f :: f in fromTo ==>
      (Untouched(files, outputPath, f) && (fromTo[f].FileTarget? ==> Untouched(files, outputPath, fromTo[f].file)))
  }

  lemma StillUntouched(before: map<Path, FileData>, after: map<Path, FileData>, outputPath: Path, fromTo: Mappings)
    requires AllUntouched(before, outputPath, fromTo)
    requires forall p :: p in before && p != outputPath ==> p in after && after[p] == before[p]
    ensures AllUntouched(after, outputPath, fromTo)
  {
  }

  lemma FlushedIsFresh(was: Mappings, temps: map<FileEntry, Path>, now: nat, outputPath: Path, files: map<Path, FileData>, view: View)
    requires forall f :: f in was && was[f].BufferTarget? ==>
               f in temps && temps[f] in files && files[temps[f]].mtime == now
    requires AllUntouched(files, outputPath, was)
    requires view == map p | p in files :: FileEntry(p, files[p].mtime)
    ensures var flushed := Flushed(was, temps, now);
            forall f :: f in flushed ==> Fresh(view, flushed, f) && view[flushed[f].name] == flushed[f]
  {
    var flushed := Flushed(was, temps, now);
    forall f | f in flushed ensures Fresh(view, flushed, f) && view[flushed[f].name] == flushed[f] {
      assert was[f].FileTarget? || flushed[f] == FileEntry(temps[f], now);
    }
  }

  lemma ReloadGivesFlushed(was: Mappings, temps: map<FileEntry, Path>, now: nat, outputPath: Path,
                           files: map<Path, FileData>, view: View, order: seq<FileEntry>)
    requires forall f :: f in was && was[f].BufferTarget? ==>
               f in temps && temps[f] in files && files[temps[f]].mtime == now
    requires AllUntouched(files, outputPath, was) && Printable(Flushed(was, temps, now))
    requires view == map p | p in files :: FileEntry(p, files[p].mtime)
    requires forall f :: f in order <==> f in was
    ensures var flushed := Flushed(was, temps, now);
            var parsed := ParsePairs(SplitLines(JoinLines(Records(order, flushed))), view, false);
            parsed.Some? && MapOf(parsed.value) == flushed
  {
    FlushedIsFresh(was, temps, now, outputPath, files, view);
    RemapFileRoundTrip(order, Flushed(was, temps, now), view, false);
  }

  /** If two files share a target for a while, the reverse map can lose the target,
      and stay without it when targets are unshared again. */
  method SharedTargetIsForgotten(disk: Disk, f: FileEntry, g: FileEntry, n: FileEntry) returns (r: FileRemapper)
    requires f != g
    ensures fresh(r) && r.Valid() && UnsharedTargets(r.FromToMappings)
    ensures r.FromToMappings == map[f := BufferTarget(MemoryBuffer(0, "")), g := FileTarget(n)] && n !in r.ToFromMappings
    ensures !r.FullInverse()
  {
    r := new FileRemapper(disk);
    r.RemapToFile(f, n);
    assert r.FromToMappings == map[f := FileTarget(n)] && r.ToFromMappings == map[n := f];
    r.RemapToFile(g, n);
    assert r.FromToMappings == map[f := FileTarget(n), g := FileTarget(n)] && r.ToFromMappings == map[n := g];
    r.RemapToBuffer(f, MemoryBuffer(0, ""));
    assert r.ToFromMappings == map[];
    assert r.FromToMappings[g] == FileTarget(n);
  }

  /** Remapping the forgotten file once more to the target it has repairs this. */
  method RemappingRepairs(disk: Disk, f: FileEntry, g: FileEntry, n: FileEntry) returns (r: FileRemapper)
    requires f != g
    ensures fresh(r) && r.Valid() && r.FullInverse()
    ensures r.FromToMappings == map[f := BufferTarget(MemoryBuffer(0, "")), g := FileTarget(n)]
  {
    r := SharedTargetIsForgotten(disk, f, g, n);
    SetInverseExactly(r.FromToMappings, r.ToFromMappings, g, FileTarget(n));
    r.RemapToFile(g, n);
  }

  function After(pairs: seq<(FileEntry, FileEntry)>, rest: Option<seq<(FileEntry, FileEntry)>>): Option<seq<(FileEntry, FileEntry)>> {
    if rest.None? then None else Some(pairs + rest.value)
  }

  lemma AfterNothing(rest: Option<seq<(FileEntry, FileEntry)>>)
    ensures After([], rest) == rest
  {
    if rest.Some? {
      assert [] + rest.value == rest.value;
    }
  }

  lemma AfterPair(pairs: seq<(FileEntry, FileEntry)>, pair: (FileEntry, FileEntry), rest: Option<seq<(FileEntry, FileEntry)>>)
    ensures After(pairs, if rest.None? then None else Some([pair] + rest.value)) == After(pairs + [pair], rest)
  {
    if rest.Some? {
      assert pairs + ([pair] + rest.value) == pairs + [pair] + rest.value;
    }
  }

  lemma {:induction false} RecordAppended(order: seq<FileEntry>, f: FileEntry, target: map<FileEntry, FileEntry>)
    requires (forall g :: g in order ==> g in target) && f in target
    ensures JoinLines(Records(order + [f], target)) == JoinLines(Records(order, target)) + RecordText(f, target[f])
  {
    RecordsAppend(order, f, target);
    JoinConcat(Records(order, target), [f.name, Decimal(f.mtime), target[f].name]);
    ThreeLines(f.name, Decimal(f.mtime), target[f].name);
  }

  function RecordText(f: FileEntry, n: FileEntry): string {
    f.name + "\n" + Decimal(f.mtime) + "\n" + n.name + "\n"
  }

  lemma {:induction false} RecordsAppend(order: seq<FileEntry>, f: FileEntry, target: map<FileEntry, FileEntry>)
    requires (forall g :: g in order ==> g in target) && f in target
    ensures Records(order + [f], target) == Records(order, target) + [f.name, Decimal(f.mtime), target[f].name]
  {
    if order == [] {
      assert order + [f] == [f] && [f][1..] == [];
    } else {
      assert (order + [f])[1..] == order[1..] + [f];
      assert forall g :: g in order[1..] ==> g in order;
      RecordsAppend(order[1..], f, target);
    }
  }

  lemma ThreeLines(a: string, b: string, c: string)
    ensures JoinLines([a, b, c]) == a + "\n" + b + "\n" + c + "\n"
  {
    assert [a, b, c][1..] == [b, c] && [b, c][1..] == [c] && [c][1..] == [];
    assert JoinLines([c]) == c + "\n" + "";
    assert JoinLines([b, c]) == b + "\n" + JoinLines([c]);
    assert b + "\n" + (c + "\n") == b + "\n" + c + "\n";
    assert a + "\n" + (b + "\n" + c + "\n") == a + "\n" + b + "\n" + c + "\n";
  }
}
