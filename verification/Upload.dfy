/** internal/handlers/attachments.go and internal/storage/local.go: files received part by part, stored as
    they stream in, and taken back when the upload fails. */
module Upload {
  import opened Wrappers

  newtype Byte = x: int | 0 <= x < 256
  type Bytes = seq<Byte>

  function Flat(chunks: seq<Bytes>): Bytes {
    if chunks == [] then [] else chunks[0] + Flat(chunks[1..])
  }

  // -------------------------------------------------------------------------- readers

  /** What is left to read, in the pieces it arrives in, and whether it breaks off after them. */
  class Source {
    var chunks: seq<Bytes>
    const broken: bool

    ghost function Rest(): Bytes
      reads this
    {
      Flat(chunks)
    }

    constructor (pieces: seq<Bytes>, breaks: bool)
      ensures chunks == pieces && broken == breaks
    {
      chunks, broken := pieces, breaks;
    }

    /** Up to `max` bytes, or none at the end. */
    method Read(max: nat) returns (data: Bytes, end: bool)
      requires max > 0
      modifies this
      ensures old(Rest()) == data + Rest() && |data| <= max
      ensures end == (old(chunks) == []) && (end ==> data == [] && chunks == [])
      ensures !end ==> |Flat(chunks)| < |Flat(old(chunks))| || |chunks| < |old(chunks)|
      ensures |chunks| <= |old(chunks)| && |Rest()| <= |old(Rest())|
    {
      if chunks == [] { return [], true; }
      end := false;
      var first := chunks[0];
      if |first| <= max {
        data := first;
        chunks := chunks[1..];
      } else {
        data := first[..max];
        var left := [first[max..]] + chunks[1..];
        assert left[1..] == chunks[1..];
        assert first[..max] + first[max..] == first;
        chunks := left;
      }
    }

    /** io.ReadFull: `n` bytes, or as many as there are. */
    method ReadFull(n: nat) returns (head: Bytes)
      modifies this
      ensures old(Rest()) == head + Rest() && |head| <= n
      ensures |head| < n ==> chunks == []
    {
      head := [];
      ghost var whole := Rest();
      while |head| < n
        invariant |head| <= n && whole == head + Rest()
        decreases |Rest()| + |chunks|
      {
        var data, end := Read(n - |head|);
        if end { return; }
        head := head + data;
      }
    }
  }

  /** Feeds everything read through it to a hash. */
  class HashingReader {
    const source: Source
    var hashed: Bytes

    constructor (s: Source)
      ensures source == s && hashed == []
    {
      source, hashed := s, [];
    }

    method Read(max: nat) returns (data: Bytes, end: bool)
      requires max > 0
      modifies this, source
      ensures old(source.Rest()) == data + source.Rest() && |data| <= max && hashed == old(hashed) + data
      ensures end == (old(source.chunks) == []) && (end ==> data == [] && source.chunks == [])
      ensures !end ==> |Flat(source.chunks)| < |Flat(old(source.chunks))| || |source.chunks| < |old(source.chunks)|
      ensures |source.chunks| <= |old(source.chunks)| && |source.Rest()| <= |old(source.Rest())|
    {
      data, end := source.Read(max);
      hashed := hashed + data;
    }
  }

  // --------------------------------------------------------------------------- storage

  /** The path of a file under the base directory. */
  datatype Key = Key(path: string)

  datatype PutError = InvalidKey | DiskError | ReadError | TooLarge

  /** What the disk does to one file: whether it can be made, how much of it can be written, and whether
      it can be closed. */
  datatype Disk = Disk(opens: bool, room: nat, closes: bool)

  predicate HasDots(path: string) {
    |path| >= 2 && ((path[0] == '.' && path[1] == '.') || HasDots(path[1..]))
  }

  /** ".." */
  ghost predicate DotsAt(path: string, i: nat) { i + 2 <= |path| && path[i..i + 2] == ".." }

  lemma {:induction false} HasDotsIff(path: string)
    ensures HasDots(path) <==> exists i: nat :: DotsAt(path, i)
  {
    if |path| >= 2 {
      assert path[0..2] == [path[0], path[1]];
      HasDotsIff(path[1..]);
      if i: nat :| DotsAt(path[1..], i) {
        assert path[1..][i..i + 2] == path[i + 1..i + 3];
        assert DotsAt(path, i + 1);
      }
      if i: nat :| DotsAt(path, i) {
        if i > 0 {
          assert path[1..][i - 1..i + 1] == path[i..i + 2];
          assert DotsAt(path[1..], i - 1);
        }
      }
      assert path[0..2] == ".." ==> DotsAt(path, 0);
    }
  }

  /** What Put answers. A stream that is too long is not read to its end. */
  function PutVerdict(key: Key, whole: Bytes, broken: bool, maxBytes: nat, disk: Disk): Option<PutError> {
    var copied := if |whole| <= maxBytes then |whole| else maxBytes + 1;
    if HasDots(key.path) then Some(InvalidKey)
    else if !disk.opens || copied > disk.room then Some(DiskError)
    else if |whole| <= maxBytes && broken then Some(ReadError)
    else if !disk.closes then Some(DiskError)
    else if |whole| > maxBytes then Some(TooLarge)
    else None
  }

  const BUFFER := 32 * 1024

  class LocalStore {
    var files: map<Key, Bytes>
    /** The keys whose file the disk will not remove. */
    const stuck: set<Key>

    constructor (present: map<Key, Bytes>, cannotRemove: set<Key>)
      ensures files == present && stuck == cannotRemove
    {
      files, stuck := present, cannotRemove;
    }

    method Remove(key: Key)
      modifies this
      ensures files == if key in stuck then old(files) else old(files) - {key}
    {
      if key !in stuck { files := files - {key}; }
    }

    method Delete(key: Key)
      modifies this
      ensures files == if HasDots(key.path) || key in stuck then old(files) else old(files) - {key}
    {
      if HasDots(key.path) { return; }
      Remove(key);
    }

    /** io.Copy from a reader limited to one byte more than fits: what was copied, and whether a read or a
        write failed. */
    method Copy(key: Key, r: HashingReader, maxBytes: nat, room: nat) returns (n: nat, err: Option<PutError>)
      requires key in files && files[key] == [] && r.hashed == []
      modifies this, r, r.source
      ensures key in files && files == old(files)[key := files[key]]
      ensures var whole := old(r.source.Rest());
              var copied := if |whole| <= maxBytes then |whole| else maxBytes + 1;
              && (err == Some(DiskError) <==> copied > room)
              && (copied <= room ==> n == copied && files[key] == whole[..copied] && r.hashed == whole[..copied])
              && (copied <= room ==> err == if |whole| <= maxBytes && r.source.broken then Some(ReadError) else None)
    {
      n, err := 0, None;
      ghost var whole := r.source.Rest();
      while n < maxBytes + 1
        invariant n <= maxBytes + 1 && n <= room && err == None
        invariant key in files && files == old(files)[key := files[key]]
        invariant |files[key]| == n && files[key] == r.hashed && whole == r.hashed + r.source.Rest()
        decreases |r.source.Rest()| + |r.source.chunks|
      {
        var left := maxBytes + 1 - n;
        var data, end := r.Read(if left < BUFFER then left else BUFFER);
        if end {
          assert whole == r.hashed == files[key];
          err := if r.source.broken then Some(ReadError) else None;
          return;
        }
        assert whole == r.hashed + r.source.Rest();
        if n + |data| > room {
          err := Some(DiskError);
          return;
        }
        files := files[key := files[key] + data];
        n := n + |data|;
      }
      assert whole[..n] == r.hashed;
    }

    /** A stream that fits is stored whole, and hashed as it is stored; otherwise no file is left, unless the
        disk will not remove it. */
    method Put(key: Key, r: HashingReader, maxBytes: nat, disk: Disk) returns (n: nat, err: Option<PutError>)
      requires r.hashed == []
      modifies this, r, r.source
      ensures var whole := old(r.source.Rest());
              && err == PutVerdict(key, whole, r.source.broken, maxBytes, disk)
              && (err == None ==> files == old(files)[key := whole] && n == |whole| <= maxBytes && r.hashed == whole)
      ensures err.Some? && key !in stuck && key !in old(files) ==> files == old(files)
      ensures err.Some? ==> files - {key} == old(files) - {key}
    {
      if HasDots(key.path) { return 0, Some(InvalidKey); }
      if !disk.opens { return 0, Some(DiskError); }
      ghost var whole := r.source.Rest();
      assert whole[..|whole|] == whole;
      files := files[key := []];
      n, err := Copy(key, r, maxBytes, disk.room);
      if err == None && !disk.closes { err := Some(DiskError); }
      if err == None && n > maxBytes { err := Some(TooLarge); }
      if err.Some? { Remove(key); }
    }
  }

  // -------------------------------------------------------------------------- request

  /** A part of the form: its names, and its content in the pieces it arrives in, which may break off. */
  datatype Part = Part(form: string, name: string, chunks: seq<Bytes>, broken: bool)

  /** What a form consists of, up to a place where it cannot be read on. */
  datatype Item = Next(part: Part) | Unreadable

  predicate IsFile(item: Item) { item.Next? && item.part.form == "file" && item.part.name != "" }

  function FileParts(items: seq<Item>): seq<Part> {
    if items == [] then [] else (if IsFile(items[0]) then [items[0].part] else []) + FileParts(items[1..])
  }

  datatype Limits = Limits(maxFile: nat, maxFiles: nat)

  /** What the world does with the next file: the random key it gets, the disk, and whether its row is
      recorded. */
  datatype World = World(key: Key, disk: Disk, recorded: bool)

  datatype Uploaded = Uploaded(key: Key, name: string, size: nat, hashed: Bytes)

  datatype Error = BadForm | TooMany | FileTooLarge | NotStored | NotRecorded | NoFiles

  /** What goes wrong with one file, once it is its turn. */
  function PartVerdict(part: Part, world: World, limits: Limits): Option<Error> {
    match PutVerdict(world.key, Flat(part.chunks), part.broken, limits.maxFile, world.disk)
    case Some(TooLarge) => Some(FileTooLarge)
    case Some(_) => Some(NotStored)
    case None => if world.recorded then None else Some(NotRecorded)
  }

  /** The first thing that fails, with `done` files received. */
  function Verdict(items: seq<Item>, worlds: seq<World>, limits: Limits, done: nat): Option<Error> {
    if items == [] then (if done == 0 then Some(NoFiles) else None)
    else if items[0].Unreadable? then Some(BadForm)
    else if !IsFile(items[0]) then Verdict(items[1..], worlds, limits, done)
    else if done >= limits.maxFiles then Some(TooMany)
    else if done >= |worlds| then Some(NotStored)
    else
      var failure := PartVerdict(items[0].part, worlds[done], limits);
      if failure.Some? then failure else Verdict(items[1..], worlds, limits, done + 1)
  }

  function Receipt(part: Part, world: World): Uploaded {
    Uploaded(world.key, part.name, |Flat(part.chunks)|, Flat(part.chunks))
  }

  /** One entry for each of the first files: its key, its name, its size and its hash, all of the whole part. */
  function Receipts(parts: seq<Part>, worlds: seq<World>, n: nat): (out: seq<Uploaded>)
    requires n <= |parts| && n <= |worlds|
    ensures |out| == n
  {
    seq(n, i requires 0 <= i < n => Receipt(parts[i], worlds[i]))
  }

  /** Storage with the first files added. */
  function WithFiles(files: map<Key, Bytes>, parts: seq<Part>, worlds: seq<World>, n: nat): map<Key, Bytes>
    requires n <= |parts| && n <= |worlds|
  {
    if n == 0 then files else WithFiles(files, parts, worlds, n - 1)[worlds[n - 1].key := Flat(parts[n - 1].chunks)]
  }

  /** The random keys are new, and no two are the same. */
  ghost predicate FreshKeys(files: map<Key, Bytes>, worlds: seq<World>) {
    && (forall i :: 0 <= i < |worlds| ==> worlds[i].key !in files)
    && (forall i, j :: 0 <= i < j < |worlds| ==> worlds[i].key != worlds[j].key)
  }

  /** And none climbs out of the base directory. */
  ghost predicate CleanKeys(worlds: seq<World>) {
    forall i :: 0 <= i < |worlds| ==> !HasDots(worlds[i].key.path)
  }

  function Keys(worlds: seq<World>, n: nat): (keys: set<Key>)
    requires n <= |worlds|
    ensures forall i :: 0 <= i < n ==> worlds[i].key in keys
  {
    if n == 0 then {} else Keys(worlds, n - 1) + {worlds[n - 1].key}
  }

  lemma {:induction false} KeyIsOf(worlds: seq<World>, n: nat, key: Key) returns (i: nat)
    requires n <= |worlds| && key in Keys(worlds, n)
    ensures i < n && worlds[i].key == key
  {
    if key == worlds[n - 1].key { return n - 1; }
    i := KeyIsOf(worlds, n - 1, key);
  }

  lemma KeyIsNew(files: map<Key, Bytes>, worlds: seq<World>, n: nat)
    requires FreshKeys(files, worlds) && n < |worlds|
    ensures worlds[n].key !in files && worlds[n].key !in Keys(worlds, n)
  {
    if worlds[n].key in Keys(worlds, n) {
      var i := KeyIsOf(worlds, n, worlds[n].key);
    }
  }

  lemma {:induction false} WithFilesKeys(files: map<Key, Bytes>, parts: seq<Part>, worlds: seq<World>, n: nat, k: Key)
    requires n <= |parts| && n <= |worlds|
    ensures k in WithFiles(files, parts, worlds, n) <==> k in files || k in Keys(worlds, n)
  {
    if n > 0 { WithFilesKeys(files, parts, worlds, n - 1, k); }
  }

  lemma {:induction false} WithFilesHolds(files: map<Key, Bytes>, parts: seq<Part>, worlds: seq<World>, n: nat, i: nat)
    requires FreshKeys(files, worlds) && n <= |parts| && n <= |worlds| && i < n
    ensures var after := WithFiles(files, parts, worlds, n);
            worlds[i].key in after && after[worlds[i].key] == Flat(parts[i].chunks)
  {
    if i < n - 1 {
      WithFilesHolds(files, parts, worlds, n - 1, i);
      assert worlds[i].key != worlds[n - 1].key;
    }
  }

  lemma {:induction false} WithFilesKeeps(files: map<Key, Bytes>, parts: seq<Part>, worlds: seq<World>, n: nat, k: Key)
    requires FreshKeys(files, worlds) && n <= |parts| && n <= |worlds| && k in files
    ensures var after := WithFiles(files, parts, worlds, n); k in after && after[k] == files[k]
  {
    if n > 0 { WithFilesKeeps(files, parts, worlds, n - 1, k); }
  }

  /** Storage gained exactly one file per part, each holding the whole part, and lost or changed none. */
  lemma WithFilesAddsEach(files: map<Key, Bytes>, parts: seq<Part>, worlds: seq<World>, n: nat)
    requires FreshKeys(files, worlds) && n <= |parts| && n <= |worlds|
    ensures var after := WithFiles(files, parts, worlds, n);
            && (forall k <- after :: k in files || k in Keys(worlds, n))
            && (forall k <- files :: k in after && after[k] == files[k])
            && (forall i :: 0 <= i < n ==> worlds[i].key in after && after[worlds[i].key] == Flat(parts[i].chunks))
  {
    var after := WithFiles(files, parts, worlds, n);
    forall k <- after ensures k in files || k in Keys(worlds, n) { WithFilesKeys(files, parts, worlds, n, k); }
    forall k <- files ensures k in after && after[k] == files[k] { WithFilesKeeps(files, parts, worlds, n, k); }
    forall i | 0 <= i < n ensures worlds[i].key in after && after[worlds[i].key] == Flat(parts[i].chunks) {
      WithFilesHolds(files, parts, worlds, n, i);
    }
  }

  /** The path stays under the base directory, and the disk makes the file, holds so much of it, and closes it. */
  ghost predicate Holds(world: World, size: nat) {
    !(exists i: nat :: DotsAt(world.key.path, i)) && world.disk.opens && size <= world.disk.room && world.disk.closes
  }

  /** A file that goes through is whole, fits, is stored and is recorded. */
  ghost predicate Passes(part: Part, world: World, limits: Limits) {
    |Flat(part.chunks)| <= limits.maxFile && !part.broken && Holds(world, |Flat(part.chunks)|) && world.recorded
  }

  /** It is too large exactly if it has more bytes than the limit; the disk has to hold one of them. */
  ghost predicate IsTooLarge(part: Part, world: World, limits: Limits) {
    |Flat(part.chunks)| > limits.maxFile && Holds(world, limits.maxFile + 1)
  }

  /** What goes wrong with one file is told apart by its size, the disk and the stream. */
  lemma PartVerdictIff(part: Part, world: World, limits: Limits)
    ensures var v := PartVerdict(part, world, limits);
      && (v == None <==> Passes(part, world, limits))
      && (v == Some(FileTooLarge) <==> IsTooLarge(part, world, limits))
      && (v == Some(NotRecorded) <==> !world.recorded && Passes(part, world.(recorded := true), limits))
      && (v.Some? ==> v.value in {FileTooLarge, NotRecorded, NotStored})
  {
    HasDotsIff(world.key.path);
  }

  ghost predicate AllPass(parts: seq<Part>, worlds: seq<World>, limits: Limits, done: nat) {
    && done + |parts| <= |worlds| && (parts != [] ==> done + |parts| <= limits.maxFiles)
    && forall i :: 0 <= i < |parts| ==> Passes(parts[i], worlds[done + i], limits)
  }

  /** All of these items can be read, and all files among them go through. */
  ghost predicate GoThrough(items: seq<Item>, worlds: seq<World>, limits: Limits, done: nat) {
    (forall item <- items :: item.Next?) && AllPass(FileParts(items), worlds, limits, done)
  }

  lemma AllPassFirst(part: Part, rest: seq<Part>, worlds: seq<World>, limits: Limits, done: nat)
    requires done + 1 + |rest| <= |worlds|
    ensures AllPass([part] + rest, worlds, limits, done)
       <==> done < limits.maxFiles && Passes(part, worlds[done], limits) && AllPass(rest, worlds, limits, done + 1)
  {
    hide Passes;
    var parts := [part] + rest;
    if AllPass(parts, worlds, limits, done) {
      assert parts[0] == part && worlds[done + 0] == worlds[done];
      assert forall i :: 0 <= i < |rest| ==> rest[i] == parts[i + 1] && done + 1 + i == done + (i + 1);
    }
    if done < limits.maxFiles && Passes(part, worlds[done], limits) && AllPass(rest, worlds, limits, done + 1) {
      assert forall i :: 1 <= i < |parts| ==> parts[i] == rest[i - 1] && done + 1 + (i - 1) == done + i;
    }
  }

  lemma GoThroughFirst(item: Item, tail: seq<Item>, worlds: seq<World>, limits: Limits, done: nat)
    requires done + |FileParts([item] + tail)| <= |worlds|
    ensures GoThrough([item] + tail, worlds, limits, done) <==>
      if IsFile(item) then
        && done < |worlds| && done < limits.maxFiles && Passes(item.part, worlds[done], limits)
        && GoThrough(tail, worlds, limits, done + 1)
      else item.Next? && GoThrough(tail, worlds, limits, done)
  {
    hide Passes, AllPass;
    var items := [item] + tail;
    assert items[1..] == tail && forall x :: x in items <==> x == item || x in tail;
    if IsFile(item) {
      assert FileParts(items) == [item.part] + FileParts(tail);
      AllPassFirst(item.part, FileParts(tail), worlds, limits, done);
    } else {
      assert FileParts(items) == FileParts(tail);
    }
  }

  /** An upload goes through exactly when the whole form can be read, it has a file and not too many, and
      every file is whole, fits, is stored and is recorded. */
  lemma {:induction false} AcceptedIff(items: seq<Item>, worlds: seq<World>, limits: Limits, done: nat)
    requires done + |FileParts(items)| <= |worlds|
    ensures Verdict(items, worlds, limits, done) == None
       <==> GoThrough(items, worlds, limits, done) && 1 <= done + |FileParts(items)|
  {
    hide Passes, AllPass, GoThrough, PartVerdict, Holds, PutVerdict;
    if items != [] {
      var tail := items[1..];
      assert items == [items[0]] + tail;
      GoThroughFirst(items[0], tail, worlds, limits, done);
      if IsFile(items[0]) {
        PartVerdictIff(items[0].part, worlds[done], limits);
        AcceptedIff(tail, worlds, limits, done + 1);
      } else {
        AcceptedIff(tail, worlds, limits, done);
      }
    } else {
      assert GoThrough([], worlds, limits, done) by { NothingGoesThrough(worlds, limits, done); }
    }
  }

  lemma NothingGoesThrough(worlds: seq<World>, limits: Limits, done: nat)
    requires done <= |worlds|
    ensures GoThrough([], worlds, limits, done)
  {}

  /** `item` is where an upload ends that has received `n` files, and why. */
  ghost predicate EndsAt(item: Item, worlds: seq<World>, limits: Limits, n: nat, e: Error) {
    if item.Unreadable? then e == BadForm
    else if item.part.form != "file" || item.part.name == "" then false
    else if n >= limits.maxFiles then e == TooMany
    else n < |worlds| && EndsWith(item.part, worlds[n], limits, e)
  }

  ghost predicate EndsWith(part: Part, world: World, limits: Limits, e: Error) {
    match e
    case FileTooLarge => IsTooLarge(part, world, limits)
    case NotRecorded => !world.recorded && Passes(part, world.(recorded := true), limits)
    case NotStored => !IsTooLarge(part, world, limits) && !Passes(part, world.(recorded := true), limits)
    case _ => false
  }

  /** An upload fails for want of a file, or at the first item that does not go through, and as that one does. */
  ghost predicate Fails(items: seq<Item>, worlds: seq<World>, limits: Limits, done: nat, e: Error) {
    || (e == NoFiles && done == 0 && FileParts(items) == [] && GoThrough(items, worlds, limits, done))
    || exists k :: 0 <= k < |items| && FailsAt(items, worlds, limits, done, e, k)
  }

  ghost predicate FailsAt(items: seq<Item>, worlds: seq<World>, limits: Limits, done: nat, e: Error, k: nat)
    requires k < |items|
  {
    && GoThrough(items[..k], worlds, limits, done)
    && EndsAt(items[k], worlds, limits, done + |FileParts(items[..k])|, e)
  }

  lemma {:induction false} FilesOfPrefix(items: seq<Item>, k: nat)
    requires k <= |items|
    ensures |FileParts(items[..k])| <= |FileParts(items)|
  {
    if k > 0 {
      assert items[..k][1..] == items[1..][..k - 1];
      FilesOfPrefix(items[1..], k - 1);
    }
  }

  /** An upload that ends later than at its first item has received that one, and the rest ends there. */
  lemma FailsLater(item: Item, tail: seq<Item>, worlds: seq<World>, limits: Limits, done: nat, e: Error, k: nat)
    requires k < |tail| && done + |FileParts([item] + tail)| <= |worlds|
    ensures FailsAt([item] + tail, worlds, limits, done, e, k + 1) <==>
      if IsFile(item) then
        && done < |worlds| && done < limits.maxFiles && Passes(item.part, worlds[done], limits)
        && FailsAt(tail, worlds, limits, done + 1, e, k)
      else item.Next? && FailsAt(tail, worlds, limits, done, e, k)
  {
    hide Passes, AllPass, EndsAt, GoThrough;
    var items := [item] + tail;
    assert items[1..] == tail && items[..k + 1] == [item] + tail[..k] && items[k + 1] == tail[k];
    assert ([item] + tail[..k])[1..] == tail[..k];
    FilesOfPrefix(tail, k);
    GoThroughFirst(item, tail[..k], worlds, limits, done);
  }

  lemma FailsHere(items: seq<Item>, worlds: seq<World>, limits: Limits, done: nat, e: Error)
    requires items != [] && done + |FileParts(items)| <= |worlds|
    ensures FailsAt(items, worlds, limits, done, e, 0) <==> EndsAt(items[0], worlds, limits, done, e)
  {
    hide EndsAt, GoThrough;
    NothingGoesThrough(worlds, limits, done);
    var none := items[..0];
    assert none == [] && FileParts(none) == [];
    assert done + |FileParts(none)| == done;
  }

  lemma FirstDecides(item: Item, worlds: seq<World>, limits: Limits, n: nat, e: Error)
    requires IsFile(item) ==> n < |worlds|
    ensures EndsAt(item, worlds, limits, n, e) <==>
      || (item.Unreadable? && e == BadForm)
      || (IsFile(item) && if n >= limits.maxFiles then e == TooMany else
            PartVerdict(item.part, worlds[n], limits) == Some(e))
  {
    if IsFile(item) { PartVerdictIff(item.part, worlds[n], limits); }
  }

  /** What happens at the first item, and then in the rest. */
  lemma FailsStep(item: Item, tail: seq<Item>, worlds: seq<World>, limits: Limits, done: nat, e: Error)
    requires done + |FileParts([item] + tail)| <= |worlds|
    ensures Fails([item] + tail, worlds, limits, done, e) <==>
      || EndsAt(item, worlds, limits, done, e)
      || if IsFile(item) then
           && done < |worlds| && done < limits.maxFiles && Passes(item.part, worlds[done], limits)
           && Fails(tail, worlds, limits, done + 1, e)
         else item.Next? && Fails(tail, worlds, limits, done, e)
  {
    hide Passes, AllPass, GoThrough, EndsAt, FailsAt;
    var items := [item] + tail;
    assert items[1..] == tail;
    FailsHere(items, worlds, limits, done, e);
    GoThroughFirst(item, tail, worlds, limits, done);
    var n := if IsFile(item) then done + 1 else done;
    if k :| 0 <= k < |items| && FailsAt(items, worlds, limits, done, e, k) {
      if k > 0 { FailsLater(item, tail, worlds, limits, done, e, k - 1); }
    }
    if k :| 0 <= k < |tail| && FailsAt(tail, worlds, limits, n, e, k) {
      FailsLater(item, tail, worlds, limits, done, e, k);
    }
  }

  /** What an upload fails with: exactly what its first bad item says, and `NoFiles` if it has neither a bad
      item nor a file. */
  lemma {:induction false} FailsIff(items: seq<Item>, worlds: seq<World>, limits: Limits, done: nat, e: Error)
    requires done + |FileParts(items)| <= |worlds|
    ensures Verdict(items, worlds, limits, done) == Some(e) <==> Fails(items, worlds, limits, done, e)
  {
    hide Passes, AllPass, GoThrough, PartVerdict, EndsAt, FailsAt;
    if items == [] {
      NothingGoesThrough(worlds, limits, done);
    } else {
      var item, tail := items[0], items[1..];
      assert items == [item] + tail;
      FirstDecides(item, worlds, limits, done, e);
      FailsStep(item, tail, worlds, limits, done, e);
      if IsFile(item) { PartVerdictIff(item.part, worlds[done], limits); }
      FailsIff(tail, worlds, limits, if IsFile(item) then done + 1 else done, e);
    }
  }

  // -------------------------------------------------------------------------- receive

  /** Nothing is left of the upload but files that the disk would not remove. */
  ghost predicate AsBefore(before: map<Key, Bytes>, after: map<Key, Bytes>, stuck: set<Key>) {
    && (forall k <- before :: k in after && after[k] == before[k])
    && (forall k <- after :: k in before || k in stuck)
  }

  lemma AsBeforeIsSame(before: map<Key, Bytes>, after: map<Key, Bytes>)
    requires AsBefore(before, after, {})
    ensures after == before
  {
    assert after.Keys == before.Keys;
  }

  const HEAD := 512

  method Cleanup(store: LocalStore, keys: seq<Key>)
    modifies store
    ensures forall k <- store.files :: k in old(store.files) && store.files[k] == old(store.files)[k]
    ensures forall k <- old(store.files) :: k !in store.files ==> k in keys
    ensures forall k <- keys :: k in store.files ==> HasDots(k.path) || k in store.stuck
  {
    var i := 0;
    while i < |keys|
      invariant i <= |keys|
      invariant forall k <- store.files :: k in old(store.files) && store.files[k] == old(store.files)[k]
      invariant forall k <- old(store.files) :: k !in store.files ==> k in keys
      invariant forall j :: 0 <= j < i ==> keys[j] in store.files ==> HasDots(keys[j].path) || keys[j] in store.stuck
    {
      store.Delete(keys[i]);
      i := i + 1;
    }
  }

  /** One file part: its head is read to tell its type, and put in front of the rest again. */
  method StorePart(store: LocalStore, part: Part, world: World, maxFile: nat) returns (n: nat, hashed: Bytes,
                   err: Option<PutError>)
    requires world.key !in store.files
    modifies store
    ensures var whole := Flat(part.chunks);
            && err == PutVerdict(world.key, whole, part.broken, maxFile, world.disk)
            && (err == None ==>
                  store.files == old(store.files)[world.key := whole] && n == |whole| <= maxFile && hashed == whole)
    ensures err.Some? ==> AsBefore(old(store.files), store.files, {world.key} * store.stuck)
  {
    var source := new Source(part.chunks, part.broken);
    var head := source.ReadFull(HEAD);
    var whole := new Source([head] + source.chunks, part.broken);
    assert Flat([head] + source.chunks) == head + Flat(source.chunks) by {
      assert ([head] + source.chunks)[1..] == source.chunks;
    }
    var reader := new HashingReader(whole);
    n, err := store.Put(world.key, reader, maxFile, world.disk);
    hashed := reader.hashed;
    if err.Some? {
      assert store.files - {world.key} == old(store.files);
    }
  }

  /** Whatever was stored before the failure is taken away again. */
  method Undo(store: LocalStore, keys: seq<Key>, ghost before: map<Key, Bytes>, ghost stored: map<Key, Bytes>,
              ghost worlds: seq<World>)
    requires FreshKeys(before, worlds) && CleanKeys(worlds) && |keys| <= |worlds| && forall j :: 0 <= j < |keys| ==>
        keys[j] == worlds[j].key
    requires forall k <- stored :: k in before || k in Keys(worlds, |keys|)
    requires forall k <- before :: k in stored && stored[k] == before[k]
    requires AsBefore(stored, store.files, store.stuck)
    modifies store
    ensures AsBefore(before, store.files, store.stuck)
  {
    Cleanup(store, keys);
    forall k <- store.files ensures k in before || k in store.stuck {
      if k in Keys(worlds, |keys|) {
        var j := KeyIsOf(worlds, |keys|, k);
        assert keys[j] in keys && !HasDots(worlds[j].key.path);
      }
    }
    forall k <- before ensures k in store.files && store.files[k] == before[k] {
      assert k in stored;
      assert k !in keys;
    }
  }

  ghost predicate KeysAre(keys: seq<Key>, worlds: seq<World>) {
    |keys| <= |worlds| && forall j :: 0 <= j < |keys| ==> keys[j] == worlds[j].key
  }

  /** The state of the loop: what came before `rest` has been received. */
  ghost predicate Received(before: map<Key, Bytes>, parts: seq<Part>, worlds: seq<World>, rest: seq<Item>,
                           files: map<Key, Bytes>, keys: seq<Key>, out: seq<Uploaded>)
    requires |parts| <= |worlds|
  {
    var n := |keys|;
    && n <= |parts| && parts[n..] == FileParts(rest)
    && out == Receipts(parts, worlds, n) && files == WithFiles(before, parts, worlds, n)
  }

  lemma NextIsPart(before: map<Key, Bytes>, parts: seq<Part>, worlds: seq<World>, rest: seq<Item>,
                   files: map<Key, Bytes>, keys: seq<Key>, out: seq<Uploaded>)
    requires |parts| <= |worlds| && FreshKeys(before, worlds)
    requires Received(before, parts, worlds, rest, files, keys, out) && rest != [] && IsFile(rest[0])
    ensures var n := |keys|;
            && n < |parts| && parts[n] == rest[0].part && parts[n + 1..] == FileParts(rest[1..])
            && worlds[n].key !in files
            && out + [Receipt(parts[n], worlds[n])] == Receipts(parts, worlds, n + 1)
  {
    var n := |keys|;
    assert parts[n..][0] == rest[0].part && parts[n..][1..] == FileParts(rest[1..]);
    assert parts[n + 1..] == parts[n..][1..];
    KeyIsNew(before, worlds, n);
    WithFilesKeys(before, parts, worlds, n, worlds[n].key);
  }

  /** One file part, stored and then recorded. */
  method ReceivePart(store: LocalStore, part: Part, world: World, limits: Limits) returns (stored: bool,
                     entry: Uploaded, err: Option<Error>)
    requires world.key !in store.files
    modifies store
    ensures err == PartVerdict(part, world, limits)
    ensures stored ==> store.files == old(store.files)[world.key := Flat(part.chunks)] && entry == Receipt(part, world)
    ensures !stored ==> err.Some? && AsBefore(old(store.files), store.files, store.stuck)
  {
    var size, hashed, failure := StorePart(store, part, world, limits.maxFile);
    stored, entry := failure == None, Uploaded(world.key, part.name, size, hashed);
    if failure.Some? {
      err := Some(if failure.value == TooLarge then FileTooLarge else NotStored);
    } else {
      err := if world.recorded then None else Some(NotRecorded);
    }
  }

  /** One turn of the loop. */
  method ReceiveItem(store: LocalStore, item: Item, worlds: seq<World>, limits: Limits, keys: seq<Key>,
      out: seq<Uploaded>,
                     ghost before: map<Key, Bytes>, ghost parts: seq<Part>, ghost rest: seq<Item>)
    returns (keys': seq<Key>, out': seq<Uploaded>, err: Option<Error>)
    requires FreshKeys(before, worlds) && |parts| <= |worlds| && KeysAre(keys, worlds) && rest != [] && rest[0] == item
    requires Received(before, parts, worlds, rest, store.files, keys, out)
    modifies store
    ensures KeysAre(keys', worlds) && |keys'| <= |parts|
    ensures err == None ==>
              && Received(before, parts, worlds, rest[1..], store.files, keys', out') && |out'| <= |out| + 1
              && (|out'| == |out| || |out| < limits.maxFiles)
              && Verdict(rest, worlds, limits, |out|) == Verdict(rest[1..], worlds, limits, |out'|)
    ensures err.Some? ==>
              && err == Verdict(rest, worlds, limits, |out|)
              && AsBefore(WithFiles(before, parts, worlds, |keys'|), store.files, store.stuck)
  {
    keys', out', err := keys, out, None;
    if item.Unreadable? { return keys, out, Some(BadForm); }
    if !IsFile(item) { return; }
    if |out| >= limits.maxFiles { return keys, out, Some(TooMany); }
    NextIsPart(before, parts, worlds, rest, store.files, keys, out);
    var world, stored, entry := worlds[|out|], false, Receipt(item.part, worlds[|out|]);
    stored, entry, err := ReceivePart(store, item.part, world, limits);
    if stored { keys' := keys + [world.key]; }
    if err == None { out' := out + [entry]; }
  }

  /** A failed upload leaves storage as it was; one that goes through leaves one file per part. It fails
      with the first thing that is wrong, and only if something is. */
  method ReceiveFiles(store: LocalStore, items: seq<Item>, worlds: seq<World>, limits: Limits)
    returns (out: seq<Uploaded>, err: Option<Error>)
    requires FreshKeys(store.files, worlds) && CleanKeys(worlds) && |FileParts(items)| <= |worlds|
    modifies store
    ensures err == Verdict(items, worlds, limits, 0)
    ensures err.Some? ==> AsBefore(old(store.files), store.files, store.stuck) && out == []
    ensures err == None ==>
              var n := |FileParts(items)|;
              && 1 <= n <= limits.maxFiles && |out| == n
              && (forall i :: 0 <= i < n ==>
                    && out[i].key == worlds[i].key && out[i].name == FileParts(items)[i].name
                    && out[i].hashed == Flat(FileParts(items)[i].chunks) && out[i].size == |out[i].hashed|)
              && store.files == WithFiles(old(store.files), FileParts(items), worlds, n)
  {
    out, err := [], None;
    var storedKeys: seq<Key> := [];
    ghost var before, parts := store.files, FileParts(items);
    var rest := items;
    while rest != [] && err == None
      invariant KeysAre(storedKeys, worlds) && |storedKeys| <= |parts|
      invariant err == None ==>
                  Received(before, parts, worlds, rest, store.files, storedKeys, out) && |out| <= limits.maxFiles
      invariant Verdict(items, worlds, limits, 0) == if err.Some? then err else Verdict(rest, worlds, limits, |out|)
      invariant err.Some? ==> AsBefore(WithFiles(before, parts, worlds, |storedKeys|), store.files, store.stuck)
      decreases |rest|
    {
      storedKeys, out, err := ReceiveItem(store, rest[0], worlds, limits, storedKeys, out, before, parts, rest);
      rest := rest[1..];
    }
    if err.Some? {
      WithFilesAddsEach(before, parts, worlds, |storedKeys|);
      Undo(store, storedKeys, before, WithFiles(before, parts, worlds, |storedKeys|), worlds);
      return [], err;
    }
    if out == [] { err := Some(NoFiles); }
  }

}
