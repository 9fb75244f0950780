/**
 A mounted volume: the directory object, the files it lists, and the operations that
 keep them where they should be.
 */
module Volumes {
  import opened Bytes
  import opened DirectoryFormat
  import opened Extents
  import opened Devices
  import opened DirectoryEntries
  import opened VolumeState
  import opened Wiping

  function Values(items: seq<FileEntry>): (E: seq<Entry>)
    reads items
    ensures |E| == |items| && forall i: nat | i < |items| :: E[i] == items[i].Value()
  {
    seq(|items|, i requires 0 <= i < |items| reads items => items[i].Value())
  }

  predicate Distinct(items: seq<FileEntry>) {
    forall i: nat, j: nat | i < j < |items| :: items[i] != items[j]
  }

  lemma {:induction false} EntriesSnoc(sex: ByteSex, entries: seq<Entry>, n: nat)
    requires n < |entries| && forall i: nat | i < |entries| :: ValidEntry(entries[i])
    ensures EntriesBytes(sex, entries[..n + 1]) == EntriesBytes(sex, entries[..n]) + EntryBytes(sex, entries[n])
  {
    hide EntryBytes, ValidEntry;
    EntriesConcat(sex, entries[..n], [entries[n]]);
    assert entries[..n + 1] == entries[..n] + [entries[n]];
    EntriesOne(sex, entries[n]);
  }

  // The buffer with the label and the first n entries stored.
  function Filled(sex: ByteSex, header: Label, E: seq<Entry>, n: nat): (b: seq<Byte>)
    requires ValidEntries(E) && n <= |E|
    ensures |b| == BUFFER
  {
    Overlay(Zeros(BUFFER), 0, LabelBytes(sex, header) + EntriesBytes(sex, E[..n]))
  }

  lemma FilledStart(sex: ByteSex, header: Label, E: seq<Entry>, buffer: seq<Byte>)
    requires ValidEntries(E) && |buffer| == BUFFER && forall i: nat | i < BUFFER :: buffer[i] == 0
    ensures Overlay(buffer, 0, LabelBytes(sex, header)) == Filled(sex, header, E, 0)
  {
    hide LabelBytes;
    assert buffer == Zeros(BUFFER);
    EntriesNone(sex, E[..0]);
    assert LabelBytes(sex, header) + EntriesBytes(sex, E[..0]) == LabelBytes(sex, header);
  }

  // The next slot is clear, and storing the next entry there continues them.
  lemma SlotStored(sex: ByteSex, header: Label, E: seq<Entry>, n: nat)
    requires ValidEntries(E) && n < |E|
    ensures ENTRY + ENTRY * n + ENTRY <= BUFFER && 1 <= |E[n].name| <= 15
    ensures var at, d := ENTRY + ENTRY * n, Filled(sex, header, E, n);
      && (forall i: nat | at <= i < at + ENTRY :: d[i] == 0)
      && Overlay(d, at, EntryBytes(sex, E[n])) == Filled(sex, header, E, n + 1)
  {
    hide EntryBytes, EntriesBytes, LabelBytes;
    assert ValidEntry(E[n]);
    var l, d, e := LabelBytes(sex, header), EntriesBytes(sex, E[..n]), EntryBytes(sex, E[n]);
    OverlayAppend(Zeros(BUFFER), 0, l + d, e);
    EntriesSnoc(sex, E, n);
    assert l + d + e == l + (d + e);
  }

  lemma FilledWhole(sex: ByteSex, header: Label, E: seq<Entry>)
    requires ValidEntries(E)
    ensures Filled(sex, header, E, |E|) == Directory(sex, header, E)
  {
    assert E[..|E|] == E;
    DirectoryOf(Zeros(BUFFER), LabelBytes(sex, header), sex, header, E);
  }

  lemma EntriesNone(sex: ByteSex, none: seq<Entry>)
    requires none == []
    ensures EntriesBytes(sex, none) == []
  {
  }

  lemma EntriesOne(sex: ByteSex, e: Entry)
    requires ValidEntry(e)
    ensures EntriesBytes(sex, [e]) == EntryBytes(sex, e)
  {
  }

  lemma {:induction false} EntriesConcat(sex: ByteSex, a: seq<Entry>, b: seq<Entry>)
    requires forall i: nat | i < |a| :: ValidEntry(a[i])
    requires forall i: nat | i < |b| :: ValidEntry(b[i])
    ensures EntriesBytes(sex, a + b) == EntriesBytes(sex, a) + EntriesBytes(sex, b)
  {
    hide EntryBytes, ValidEntry;
    if a == [] {
      assert a + b == b;
    } else {
      assert (a + b)[1..] == a[1..] + b;
      EntriesConcat(sex, a[1..], b);
    }
  }

  // Reading entries gives done followed by what reading the rest gives.
  predicate Continues(whole: Parsed, done: seq<Entry>, rest: Parsed) {
    if rest.Broken? then whole == Broken
    else whole == rest.(entries := done + rest.entries)
  }

  lemma BrokenSlot(sex: ByteSex, bp: seq<Byte>, m: nat)
    requires m > 0 && (|bp| < ENTRY || bp[6] == 0)
    ensures ReadEntries(sex, bp, m).Broken?
  {
  }

  lemma {:induction false} ReadCount(sex: ByteSex, bp: seq<Byte>, m: nat)
    ensures var parsed := ReadEntries(sex, bp, m); parsed.Parsed? ==> |parsed.entries| == m
    decreases m
  {
    hide ReadEntry;
    if m > 0 && |bp| >= ENTRY {
      ReadCount(sex, bp[ENTRY..], m - 1);
    }
  }

  lemma ReadNone(sex: ByteSex, bp: seq<Byte>)
    ensures ReadEntries(sex, bp, 0) == Parsed(sex, NO_LABEL, [])
  {
  }

  lemma ReadOn(sex: ByteSex, d: seq<Byte>, n: nat, done: seq<Entry>, bp: seq<Byte>, m: nat)
    requires m > 0 && |bp| >= ENTRY && bp[6] != 0
    requires Continues(ReadEntries(sex, d, n), done, ReadEntries(sex, bp, m))
    ensures Continues(ReadEntries(sex, d, n), done + [ReadEntry(sex, bp)], ReadEntries(sex, bp[ENTRY..], m - 1))
  {
    hide ReadEntry;
    var rest := ReadEntries(sex, bp[ENTRY..], m - 1);
    if !rest.Broken? {
      assert done + [ReadEntry(sex, bp)] + rest.entries == done + ([ReadEntry(sex, bp)] + rest.entries);
    }
  }

  class Volume {
    const device: Device
    const header: VolumeLabel
    const files: EntryList
    var sex: ByteSex

    constructor (d: Device, l: VolumeLabel, list: EntryList, s: ByteSex)
      ensures device == d && header == l && files == list && sex == s
    {
      device, header, files, sex := d, l, list, s;
    }

    // The objects belong together.
    ghost predicate Linked()
      reads this, header, files, files.list
    {
      && device.Ready() && header.device == device && files.Valid() && Distinct(files.items)
      && forall i: nat | i < |files.items| :: files.items[i].device == device
    }

    ghost function Snapshot(): State
      requires device.Ready()
      reads this, header, files, files.items, device.disk.image
    {
      State(sex, header.Value(), Values(files.items), device.Contents())
    }

    ghost predicate Valid()
      reads this, header, files, files.list, files.items, device.disk.image
    {
      Linked() && header.dnumfiles == |files.items| && Sound(Snapshot())
    }

    // The directory on the medium, and its second copy, say what the objects say.
    ghost predicate Stored()
      reads this, header, files, files.list, files.items, device.disk.image
    {
      Valid() && Synced(Snapshot())
    }

    // mkfs() of a named volume, and the first meta_sync().
    static method MkFs(d: Device, volid: seq<Byte>, twin: bool, order: ByteSex, now: Date) returns (volume: Volume)
      requires d.Ready() && (if twin then 10 else 6) <= d.Length() / 512 < 65536
      requires |volid| > 0 && SLASH !in volid && now.Valid()
      modifies d.disk.image
      ensures fresh(volume) && fresh(volume.header) && fresh(volume.files) && fresh(volume.files.list)
      ensures volume.Stored() && volume.device == d && volume.sex == order && volume.files.items == []
      ensures volume.header.Value() == Label(0, if twin then 10 else 6, 0, if |volid| > 7 then volid[..7] else volid,
                                             d.Length() / 512, 0, 0, now, 0, 0)
    {
      hide Synced, Sync, Directory, Sound, Files, Values, Numbered, Used;
      var l := new VolumeLabel(d, if |volid| > 7 then volid[..7] else volid, twin, now);
      var list := new EntryList();
      volume := new Volume(d, l, list, order);
      EmptySound(volume.Snapshot());
      volume.MetaSync();
    }

    // meta_read(): null when the program gives up on the directory.
    static method MetaRead(d: Device) returns (volume: Volume?)
      requires d.Ready() && DIRECTORY + BUFFER <= d.Length()
      ensures var parsed := ReadDirectory(d.Contents()[DIRECTORY..DIRECTORY + BUFFER]);
        if parsed.Broken? then volume == null
        else
          && volume != null && fresh(volume) && fresh(volume.header) && fresh(volume.files) && fresh(volume.files.list)
          && fresh(volume.files.items)
          && volume.device == d && volume.Linked()
          && volume.Snapshot() == State(parsed.sex, parsed.header, parsed.entries, d.Contents())
          && (volume.Valid() <==> Sound(volume.Snapshot()))
    {
      hide ReadEntry, ReadLabel, ReadEntries, Sound;
      var buffer := d.Read(DIRECTORY, BUFFER);
      var s := SexOf(buffer);
      var l := new VolumeLabel.FromBytes(d, s, buffer);
      if l.dlastblock < l.dfirstblock + 3 {
        return null;
      }
      var list := ReadFiles(d, s, buffer[ENTRY..], l.dnumfiles);
      if list == null {
        return null;
      }
      volume := new Volume(d, l, list, s);
      ReadCount(s, buffer[ENTRY..], l.dnumfiles);
    }

    // The slots after the label; null when one of them has no name.
    static method ReadFiles(d: Device, s: ByteSex, slots: seq<Byte>, maxdents: nat) returns (list: EntryList?)
      ensures var parsed := ReadEntries(s, slots, maxdents);
        if parsed.Broken? then list == null
        else
          && list != null && fresh(list) && fresh(list.list) && fresh(list.items)
          && list.Valid() && Distinct(list.items)
          && (forall i: nat | i < |list.items| :: list.items[i].device == d)
          && parsed == Parsed(s, NO_LABEL, Values(list.items))
    {
      hide ReadEntry, ReadEntries;
      list := new EntryList();
      var fnum, bp := 0, slots;
      while fnum < maxdents
        invariant fnum <= maxdents
        invariant fresh(list) && list.Valid() && fresh(list.list) && fresh(list.items) && Distinct(list.items)
        invariant forall i: nat | i < |list.items| :: list.items[i].device == d
        invariant Continues(ReadEntries(s, slots, maxdents), Values(list.items), ReadEntries(s, bp, maxdents - fnum))
      {
        if |bp| < ENTRY || bp[6] == 0 {
          BrokenSlot(s, bp, maxdents - fnum);
          return null;
        }
        ghost var got := Values(list.items);
        var dep := ReadSlot(d, s, list, bp);
        ReadOn(s, slots, maxdents, got, bp, maxdents - fnum);
        fnum, bp := fnum + 1, bp[ENTRY..];
      }
      ReadNone(s, bp);
    }

    static method ReadSlot(d: Device, s: ByteSex, list: EntryList, bp: seq<Byte>) returns (dep: FileEntry)
      requires |bp| >= ENTRY && list.Valid() && Distinct(list.items)
      modifies list, list.list
      ensures list.Valid() && (list.list == old(list.list) || fresh(list.list))
      ensures fresh(dep) && dep.device == d && list.items == old(list.items) + [dep] && Distinct(list.items)
      ensures Values(list.items) == old(Values(list.items)) + [ReadEntry(s, bp)]
    {
      hide ReadEntry;
      dep := new FileEntry.FromBytes(d, s, bp);
      list.PushBack(dep);
    }

    // meta_sync()
    method MetaSync()
      requires Linked() && Sound(Snapshot())
      modifies header`dnumfiles, device.disk.image
      ensures Stored() && Snapshot() == Sync(old(Snapshot()))
      ensures Files(Snapshot()) == old(Files(Snapshot()))
      // two copies at most, one after the other from block 2 on
      ensures var d := Directory(sex, header.Value(), Values(files.items));
        && device.Length() >= 3072 && device.Contents()[1024..3072] == d
        && (header.dlastblock == 10 ==> device.Length() >= 5120 && device.Contents()[3072..5120] == d)
        && forall p: nat | p < device.Length() && !(1024 <= p < if header.dlastblock == 10 then 5120 else 3072) ::
             device.Contents()[p] == old(device.Contents())[p]
    {
      hide Sound, Synced, Files, Directory, Overlay, Distinct, ValidEntries, MaxEntries, Sync, Snapshot;
      SnapshotValues();
      ghost var s := Snapshot();
      SyncRoom(s);
      header.SetNumFiles(files.length);
      var buffer := FillBuffer();
      device.Write(DIRECTORY, buffer[..]);
      if header.dlastblock == 10 {
        device.Write(DIRECTORY + BUFFER, buffer[..]);
      }
      SnapshotValues();
      SyncIs(s, Snapshot(), buffer[..]);
      SyncKeeps(s);
      SyncPlaces(s);
    }

    method FillBuffer() returns (buffer: array<Byte>)
      requires Linked() && ValidEntries(Values(files.items))
      ensures fresh(buffer) && buffer[..] == Directory(sex, header.Value(), Values(files.items))
    {
      hide Overlay, ValidEntries, LabelBytes, Directory, Distinct, Filled, SlotPut, EntryBytes;
      buffer := new Byte[BUFFER](i => 0);
      ghost var E := Values(files.items);
      FilledStart(sex, header.Value(), E, buffer[..]);
      header.MetaWrite(sex, buffer, 0);
      var fnum := 0;
      while true
        invariant fnum <= |E| && buffer[..] == Filled(sex, header.Value(), E, fnum)
        modifies buffer
        decreases |E| - fnum
      {
        var dep := files.Nth(fnum);
        if dep == null {
          break;
        }
        WriteEntry(dep, buffer, fnum, E);
        fnum := fnum + 1;
      }
      FilledWhole(sex, header.Value(), E);
    }

    method WriteEntry(dep: FileEntry, buffer: array<Byte>, fnum: nat, ghost E: seq<Entry>)
      requires ValidEntries(E) && fnum < |E| && E[fnum] == dep.Value()
      requires buffer[..] == Filled(sex, header.Value(), E, fnum)
      modifies buffer
      ensures buffer[..] == Filled(sex, header.Value(), E, fnum + 1)
    {
      hide Overlay, ValidEntries, LabelBytes, Filled, SlotPut, EntryBytes;
      SlotStored(sex, header.Value(), E, fnum);
      dep.MetaWrite(sex, buffer, ENTRY + ENTRY * fnum);
    }

    // ------------------------------------------------------------- the gap

    lemma SnapshotParts()
      requires Linked()
      ensures |Snapshot().entries| == |files.items| && Snapshot().header == header.Value()
    {
    }

    method RelocateFile(j: nat, to: nat) returns (changed: bool, last: nat, first: nat)
      requires Linked() && j < |files.items| && Sized(Snapshot().entries[j])
      requires Holds(Snapshot().medium, Snapshot().entries[j].last)
      requires Holds(Snapshot().medium, to + Blocks(Snapshot().entries[j]))
      modifies files.items, device.disk.image
      ensures Linked() && Snapshot() == RelocateState(old(Snapshot()), j, to)
      ensures last == At(old(Snapshot()).entries[j], to).last && first == to
      ensures !changed ==> Snapshot() == old(Snapshot())
    {
      hide Moved;
      var mdep := files.Nth(j);
      SameMoved(device.Contents(), mdep.Value());
      changed := mdep.Relocate(to);
      last, first := mdep.dlastblock, mdep.dfirstblock;
    }

    // The files up to idx are moved down against the label.
    method MoveDown(idx: nat) returns (changed: bool, lowBlock: nat)
      requires Linked() && Sound(Snapshot()) && idx < |files.items|
      modifies files.items, device.disk.image
      ensures Linked() && Sliding(old(Snapshot()), Snapshot(), idx + 1, |files.items|)
      ensures lowBlock == header.dlastblock + Before(old(Snapshot()).entries, idx + 1)
      ensures !changed ==> Snapshot() == old(Snapshot())
    {
      hide Sound, Sliding, RelocateState, Sized, Holds, Snapshot, Distinct;
      SnapshotParts();
      ghost var s0 := Snapshot();
      SlideStart(s0);
      lowBlock, changed := header.dlastblock, false;
      var j := 0;
      while j <= idx
        invariant j <= idx + 1 && Linked()
        invariant Sliding(s0, Snapshot(), j, |files.items|)
        invariant lowBlock == header.dlastblock + Before(s0.entries, j)
        invariant !changed ==> Snapshot() == s0
        modifies files.items, device.disk.image
      {
        SnapshotParts();
        SlideDown(s0, Snapshot(), j);
        var err, last, _ := RelocateFile(j, lowBlock);
        if err {
          changed := true;
        }
        lowBlock := last;
        j := j + 1;
      }
    }

    // Those after idx are moved up against the end of the volume.
    method MoveUp(idx: nat, ghost s0: State) returns (changed: bool, highBlock: nat)
      requires Linked() && Sound(s0) && Sliding(s0, Snapshot(), idx + 1, |files.items|)
      modifies files.items, device.disk.image
      ensures Linked() && Sliding(s0, Snapshot(), idx + 1, idx + 1)
      ensures idx < |s0.entries| && s0.header.eov >= From(s0.entries, idx + 1)
      ensures highBlock == s0.header.eov - From(s0.entries, idx + 1)
      ensures !changed ==> Snapshot() == old(Snapshot())
    {
      hide Sound, RelocateState, Sized, Holds, Files, Slid, Sliding, Snapshot, Distinct, From, Blocks;
      SnapshotParts();
      FromNone(s0.entries);
      SlidingHeader(s0, Snapshot(), idx + 1, |files.items|);
      highBlock, changed := header.deovblk, false;
      var k := files.length;
      while k > idx + 1
        invariant idx + 1 <= k <= |files.items| && Linked()
        invariant Sliding(s0, Snapshot(), idx + 1, k)
        invariant s0.header.eov >= From(s0.entries, k) && highBlock == s0.header.eov - From(s0.entries, k)
        invariant !changed ==> Snapshot() == old(Snapshot())
        modifies files.items, device.disk.image
      {
        var moved, first := RaiseFile(k - 1, highBlock, idx, s0);
        if moved {
          changed := true;
        }
        highBlock := first;
        k := k - 1;
      }
    }

    // One more file up, to just below highBlock.
    method RaiseFile(j: nat, highBlock: nat, ghost idx: nat, ghost s0: State) returns (moved: bool, first: nat)
      requires Linked() && Sound(s0) && idx < j < |files.items| && Sliding(s0, Snapshot(), idx + 1, j + 1)
      requires s0.header.eov >= From(s0.entries, j + 1) && highBlock == s0.header.eov - From(s0.entries, j + 1)
      modifies files.items, device.disk.image
      ensures Linked() && Sliding(s0, Snapshot(), idx + 1, j)
      ensures s0.header.eov >= From(s0.entries, j) && first == s0.header.eov - From(s0.entries, j)
      ensures !moved ==> Snapshot() == old(Snapshot())
    {
      hide Sound, RelocateState, Sized, Holds, Files, Slid, Sliding, Snapshot, Distinct, From, Blocks;
      SlidingHeader(s0, Snapshot(), idx + 1, j + 1);
      SlideUp(s0, Snapshot(), idx + 1, j + 1);
      var mdep := files.Nth(j);
      SnapshotEntry(mdep, j);
      BlocksAre(mdep.Value());
      var last: nat;
      moved, last, first := RelocateFile(j, highBlock - (mdep.dlastblock - mdep.dfirstblock));
    }

    // move_gap_after(): all free blocks end up directly after dep; no file changes.
    method MoveGapAfter(dep: FileEntry, ghost i: nat) returns (gap: nat)
      requires Valid() && i < |files.items| && files.items[i] == dep
      modifies files.items, header`dnumfiles, device.disk.image
      ensures Valid() && header.Value() == old(header.Value()) && sex == old(sex)
      ensures Files(Snapshot()) == old(Files(Snapshot()))
      ensures Values(files.items) == Slid(old(Values(files.items)), header.dlastblock, header.deovblk, i + 1, i + 1)
      ensures gap == header.deovblk - header.dlastblock - Used(Files(Snapshot()))
      ensures gap == NextFirst(Values(files.items), i + 1, header.deovblk) - dep.dlastblock
      ensures Snapshot() == old(Snapshot()) || Stored()
    {
      hide Sound, Synced, Sync, Slid, Files, Values, Sliding, Reached, NextFirst, Before, Used, Snapshot, Distinct;
      SnapshotValues();
      ghost var s0 := Snapshot();
      var idx := files.IndexOf(dep);
      OnePlace(files.items, i, idx);
      var changed, lowBlock, highBlock := Slide(idx);
      GapState(s0, Snapshot(), i, lowBlock, highBlock);
      SnapshotValues();
      gap := highBlock - lowBlock;
      StoreSlid(changed, s0, i + 1);
    }

    // The directory is stored again when a file was moved.
    method StoreSlid(changed: bool, ghost s0: State, ghost j: nat)
      requires Linked() && header.dnumfiles == |files.items| && Sound(s0) && s0.header == header.Value()
      requires Sliding(s0, Snapshot(), j, j) && (!changed ==> Snapshot() == s0)
      modifies header`dnumfiles, device.disk.image
      ensures Valid() && Files(Snapshot()) == Files(s0)
      ensures header.Value() == old(header.Value()) && Snapshot().entries == old(Snapshot()).entries
      ensures Snapshot() == s0 || Stored()
    {
      hide Sound, Synced, Sync, Slid, Files, Distinct;
      if changed {
        SlidSync(s0, Snapshot(), j, j);
        MetaSync();
      }
    }

    method Slide(idx: nat) returns (changed: bool, lowBlock: nat, highBlock: nat)
      requires Linked() && Sound(Snapshot()) && idx < |files.items|
      modifies files.items, device.disk.image
      ensures Linked() && Sliding(old(Snapshot()), Snapshot(), idx + 1, idx + 1)
      ensures Reached(old(Snapshot()), idx, lowBlock, highBlock)
      ensures !changed ==> Snapshot() == old(Snapshot())
    {
      hide Sound, Slid, Files, Values, Sliding;
      ghost var s0 := Snapshot();
      var down, up;
      down, lowBlock := MoveDown(idx);
      up, highBlock := MoveUp(idx, s0);
      changed := down || up;
    }

    // crunch(): all free blocks end up behind the last file, and are counted unless
    // there is none.
    method Crunch() returns (gap: nat)
      requires Valid()
      modifies files.items, header`dnumfiles, device.disk.image
      ensures Valid() && header.Value() == old(header.Value()) && sex == old(sex)
      ensures Files(Snapshot()) == old(Files(Snapshot()))
      ensures Values(files.items) == Slid(old(Values(files.items)), header.dlastblock, header.deovblk,
                                          |files.items|, |files.items|)
      ensures gap == if files.items == [] then 0 else header.deovblk - header.dlastblock - Used(Files(Snapshot()))
      ensures Snapshot() == old(Snapshot()) || Stored()
    {
      hide Sound, Synced, Slid, Files, Before, NextFirst;
      LayoutOf(Snapshot());
      if files.length == 0 {
        SlidNothing(Values(files.items), header.dlastblock, header.deovblk);
        return 0;
      }
      var back := files.Nth(files.length - 1);
      gap := MoveGapAfter(back, files.length - 1);
    }

    method SizeofGapAfter(dep: FileEntry, ghost i: nat) returns (gap: nat)
      requires Valid() && i < |files.items| && files.items[i] == dep
      ensures gap == NextFirst(Values(files.items), i + 1, header.deovblk) - dep.dlastblock
    {
      GapBound(Values(files.items), header.dlastblock, header.deovblk, i);
      var idx := files.IndexOf(dep);
      var high := header.deovblk;
      if idx != files.length - 1 {
        var next := files.Nth(idx + 1);
        high := next.dfirstblock;
      }
      gap := high - dep.dlastblock;
    }

    method CalcUsedBlocks() returns (nblocks: nat)
      requires Valid()
      ensures nblocks == header.dlastblock + Used(Files(Snapshot()))
    {
      hide Sound, Synced, Files, Sized, Before, Blocks, Distinct;
      FirstIsZero(Snapshot());
      BeforeNone(Snapshot().entries);
      nblocks := header.dlastblock - header.dfirstblock;
      for j := 0 to files.length
        invariant nblocks == header.dlastblock + Before(Values(files.items), j)
      {
        var f := files.Nth(j);
        EntrySized(Snapshot(), j);
        BlocksAre(f.Value());
        BeforeNext(Values(files.items), j);
        nblocks := nblocks + (f.dlastblock - f.dfirstblock);
      }
      AllUsed(Snapshot());
    }

    // ---------------------------------------------------------------- files

    // Uses the gap after dep when it is enough for size bytes, and all free blocks
    // when not.
    method MakeRoom(dep: FileEntry, ghost i: nat, size: nat) returns (enough: bool)
      requires Valid() && i < |files.items| && files.items[i] == dep
      modifies files.items, header`dnumfiles, device.disk.image
      ensures Valid() && header.Value() == old(header.Value()) && sex == old(sex)
      ensures Files(Snapshot()) == old(Files(Snapshot()))
      ensures enough <==> BlocksFor(size) <= Room(old(Files(Snapshot())), Capacity(header.Value()), i)
      ensures enough ==> FitsBefore(Snapshot(), i, size)
      ensures if old(FitsBefore(Snapshot(), i, size)) then Snapshot() == old(Snapshot())
        else Values(files.items) == Slid(old(Values(files.items)), header.dlastblock, header.deovblk, i + 1, i + 1)
      ensures Snapshot() == old(Snapshot()) || Stored()
    {
      hide Sound, Synced, Slid, Files, Room, NextFirst, BlocksFor, FitsBefore, Capacity, Distinct;
      ghost var s0 := Snapshot();
      RoomNow(s0, i, size);
      var gap := SizeofGapAfter(dep, i);
      if size > (dep.dlastblock + gap - dep.dfirstblock) * 512 {
        gap := MoveGapAfter(dep, i);
        RoomMade(s0, Snapshot(), i, size);
        if size > (dep.dlastblock + gap - dep.dfirstblock) * 512 {
          return false;
        }
      }
      return true;
    }

    lemma SnapshotValues()
      requires Linked()
      ensures Snapshot() == State(sex, header.Value(), Values(files.items), device.Contents())
    {
    }

    lemma SnapshotEntry(dep: FileEntry, i: nat)
      requires Linked() && i < |files.items| && files.items[i] == dep
      ensures |Snapshot().entries| == |files.items| && Snapshot().entries[i] == dep.Value()
      ensures |Snapshot().medium| == device.Length()
    {
    }

    method Put(pos: nat, data: seq<Byte>)
      requires Linked() && pos + |data| <= device.Length()
      modifies device.disk.image
      ensures Linked() && Snapshot() == old(Snapshot()).(medium := Overlay(old(Snapshot()).medium, pos, data))
    {
      hide Overlay;
      device.Write(pos, data);
    }

    method PutZeros(pos: nat, n: nat)
      requires Linked() && pos + n <= device.Length()
      modifies device.disk.image
      ensures Linked() && Snapshot() == old(Snapshot()).(medium := Overlay(old(Snapshot()).medium, pos, Zeros(n)))
    {
      hide Overlay;
      device.WriteZero(pos, n);
    }

    method SetFileLength(dep: FileEntry, ghost i: nat, size: nat, now: Date)
      requires Linked() && i < |files.items| && files.items[i] == dep
      modifies dep
      ensures Linked()
      ensures Snapshot() == WithEntry(old(Snapshot()), i, Resized(old(Snapshot()).entries[i], size).(date := now))
    {
      dep.SetLength(size, now);
    }

    method SetFileLastByte(dep: FileEntry, ghost i: nat, size: nat, now: Date)
      requires Linked() && i < |files.items| && files.items[i] == dep
      modifies dep
      ensures Linked()
      ensures Snapshot()
           == WithEntry(old(Snapshot()), i, old(Snapshot()).entries[i].(lastByte := LastByteFor(size), date := now))
    {
      dep.SetLastByte(size, now);
    }

    method TouchFile(dep: FileEntry, ghost i: nat, now: Date)
      requires Linked() && i < |files.items| && files.items[i] == dep
      modifies dep
      ensures Linked() && Snapshot() == WithEntry(old(Snapshot()), i, old(Snapshot()).entries[i].(date := now))
    {
      dep.Touch(now);
    }

    method Truncate(dep: FileEntry, ghost i: nat, size: int, now: Date) returns (reply: Reply)
      requires Valid() && i < |files.items| && files.items[i] == dep && now.Valid()
      modifies files.items, header`dnumfiles, device.disk.image
      ensures Valid() && header.Value() == old(header.Value()) && sex == old(sex)
      ensures (reply, Files(Snapshot()))
           == TruncateFile(old(Files(Snapshot())), Capacity(header.Value()), i, size, now)
      // refused for a negative size, and for lack of blocks ...
      ensures reply == Failed(EINVAL) <==> size < 0
      ensures reply == Failed(ENOSPC) <==>
        size >= 0 && BlocksFor(size) > Room(old(Files(Snapshot())), Capacity(header.Value()), i)
      ensures reply.Done? ==> reply == Done(0)
      // ... which changes no file; else file i has size bytes, its old ones and then zeros
      ensures var fs, gs := old(Files(Snapshot())), Files(Snapshot());
        && |gs| == |fs| && (forall k: nat | k < |fs| && k != i :: gs[k] == fs[k])
        && (!reply.Done? ==> gs == fs)
        && (reply.Done? ==>
              && gs[i] == fs[i].(bytes := gs[i].bytes, date := now) && |gs[i].bytes| == size
              && forall k: nat | k < size :: gs[i].bytes[k] == if k < |fs[i].bytes| then fs[i].bytes[k] else 0)
      ensures if reply.Done? then Stored() else Snapshot() == old(Snapshot()) || Stored()
    {
      hide Sound, Synced, Files, Room, WithBytes, Cut, BlocksFor;
      TruncateMeans(Files(Snapshot()), Capacity(header.Value()), i, size, now);
      if size < 0 {
        return Failed(EINVAL);
      }
      var enough := MakeRoom(dep, i, size);
      if !enough {
        return Failed(ENOSPC);
      }
      PadOrCut(dep, i, size, now);
      Commit();
      return Done(0);
    }

    // Zeros after the end of the file if it grows, and its new length.
    method PadOrCut(dep: FileEntry, ghost i: nat, size: nat, now: Date)
      requires Linked() && i < |files.items| && files.items[i] == dep && now.Valid()
      requires Sound(Snapshot()) && FitsBefore(Snapshot(), i, size)
      modifies dep, device.disk.image
      ensures Linked() && Sound(Snapshot())
      ensures Files(Snapshot()) == WithBytes(old(Files(Snapshot())), i, Cut(old(Files(Snapshot()))[i].bytes, size), now)
    {
      hide Sound, Files, Rewritten, WithBytes, Cut, FitsBefore, Snapshot, Distinct;
      SnapshotEntry(dep, i);
      ghost var s := Snapshot();
      NowTruncated(s, i, size, now);
      var curSize := dep.GetCurrentSize();
      if size > curSize {
        var pos := dep.dfirstblock * 512 + curSize;
        PutZeros(pos, size - curSize);
        SetFileLength(dep, i, size, now);
        IsRewritten(s, Snapshot(), i, size, curSize, Zeros(size - curSize), now);
      } else {
        SetFileLength(dep, i, size, now);
        OverlayNothing(s.medium, s.entries[i].first * 512);
        IsRewritten(s, Snapshot(), i, size, 0, [], now);
      }
    }

    // Stores the directory once more after a change to the files.
    method Commit()
      requires Linked() && Sound(Snapshot()) && header.dnumfiles == |files.items|
      modifies header`dnumfiles, device.disk.image
      ensures Stored() && header.Value() == old(header.Value())
      ensures Files(Snapshot()) == old(Files(Snapshot()))
    {
      hide Sound, Synced, Files, Sync;
      SyncSame(Snapshot());
      MetaSync();
    }

    method Read(dep: FileEntry, ghost i: nat, offset: int, n: nat) returns (reply: Reply, data: seq<Byte>)
      requires Valid() && i < |files.items| && files.items[i] == dep
      ensures offset < 0 ==> reply == Failed(EINVAL) && data == []
      ensures offset >= 0 ==> reply == Done(|data|) && data == ReadFile(Files(Snapshot()), i, offset, n)
      ensures offset >= 0 ==> var b := Files(Snapshot())[i].bytes;
        && |data| == (if offset >= |b| then 0 else if |b| - offset < n then |b| - offset else n)
        && forall k: nat | k < |data| :: data[k] == b[offset + k]
    {
      hide Sound, Synced, Files, FitsBefore, ExtentSize, Blocks, ReadFile, Distinct, Sized, BlocksFor, Resized;
      if offset < 0 {
        return Failed(EINVAL), [];
      }
      ReadBytes(Snapshot(), i, offset, n);
      ReadMeans(Files(Snapshot()), i, offset, n);
      var curSize := dep.GetCurrentSize();
      if offset >= curSize {
        return Done(0), [];
      }
      var nbytes := if offset + n > curSize then curSize - offset else n;
      var pos := dep.dfirstblock * 512 + offset;
      data := device.Read(pos, nbytes);
      reply := Done(|data|);
    }

    // Writing over bytes the file has.
    method WriteInside(dep: FileEntry, ghost i: nat, offset: nat, data: seq<Byte>, now: Date)
      requires Linked() && i < |files.items| && files.items[i] == dep && now.Valid()
      requires Sound(Snapshot()) && data != [] && offset + |data| <= SizeOf(dep.Value())
      modifies dep, device.disk.image
      ensures Linked() && Sound(Snapshot())
      ensures (Done(|data|), Files(Snapshot())) == WriteVolume(old(Snapshot()), i, offset, data, now)
    {
      hide Sound, Files, Rewritten, WithBytes, Overlaid, FitsBefore, WriteVolume, Snapshot, Distinct;
      SnapshotEntry(dep, i);
      ghost var s := Snapshot();
      OwnBytes(s, i);
      WriteCases(s, i, offset, data, now);
      FitsLess(s, i, ExtentSize(dep.Value()), offset + |data|);
      SameBlocks(dep.Value(), SizeOf(dep.Value()));
      NowOverlaid(s, i, offset, data, now);
      var pos := dep.dfirstblock * 512 + offset;
      Put(pos, data);
      TouchFile(dep, i, now);
      IsRewritten(s, Snapshot(), i, SizeOf(s.entries[i]), offset, data, now);
    }

    // Writing from within the file to a place in its last block.
    method WriteToEnd(dep: FileEntry, ghost i: nat, offset: nat, data: seq<Byte>, now: Date)
      requires Linked() && i < |files.items| && files.items[i] == dep && now.Valid()
      requires Sound(Snapshot()) && offset <= SizeOf(dep.Value()) < offset + |data| <= ExtentSize(dep.Value())
      modifies dep, device.disk.image
      ensures Linked() && Sound(Snapshot())
      ensures (Done(|data|), Files(Snapshot())) == WriteVolume(old(Snapshot()), i, offset, data, now)
    {
      hide Sound, Files, Rewritten, WithBytes, Overlaid, FitsBefore, WriteVolume, Snapshot, Distinct,
        Overlay, SizeOf, ExtentSize, LastByteFor;
      SnapshotEntry(dep, i);
      ghost var s := Snapshot();
      WriteCases(s, i, offset, data, now);
      EndWithin(s, i, offset, data);
      var pos := dep.dfirstblock * 512 + offset;
      Put(pos, data);
      SetFileLastByte(dep, i, offset + |data|, now);
      EndFiles(s, Snapshot(), i, offset, data, now);
    }

    // Writing past the end of the file, within its last block.
    method WriteInHole(dep: FileEntry, ghost i: nat, offset: nat, data: seq<Byte>, now: Date) returns (reply: Reply)
      requires Linked() && i < |files.items| && files.items[i] == dep && now.Valid()
      requires Sound(Snapshot()) && SizeOf(dep.Value()) < offset && data != []
      requires offset + |data| <= ExtentSize(dep.Value())
      modifies dep, device.disk.image
      ensures Linked() && Sound(Snapshot())
      ensures (reply, Files(Snapshot())) == WriteVolume(old(Snapshot()), i, offset, data, now)
      ensures Snapshot().header == old(Snapshot()).header && Snapshot().sex == old(Snapshot()).sex
      ensures !reply.Done? ==> Snapshot() == old(Snapshot())
    {
      hide Sound, Files, Rewritten, FitsBefore, HoleFile, WriteVolume, Snapshot, Distinct, Overlay, HolePos,
        SizeOf, ExtentSize, WithBytes, Overlaid, LastByteFor;
      SnapshotEntry(dep, i);
      ghost var s, e := Snapshot(), dep.Value();
      WriteCases(s, i, offset, data, now);
      var pos := dep.dfirstblock * 512 + HolePos(offset);
      if pos + 512 > device.Length() {
        UnreadHole(s, i, offset, data, now);
        return Failed(ENOSPC);
      }
      if |data| >= 512 - offset % 512 {
        NoRoomInBlock(s, i, offset, data, now);
        return Crashed;
      }
      PutInBlock(pos, offset % 512, data);
      SetFileLastByte(dep, i, offset + |data|, now);
      HoledFiles(s, Snapshot(), i, offset, data, now);
      return Done(|data|);
    }

    // Read 512 bytes, replace some of them, and write them back.
    method PutInBlock(pos: nat, from: nat, data: seq<Byte>)
      requires Linked() && pos + 512 <= device.Length() && from + |data| <= 512
      modifies device.disk.image
      ensures Linked() && Snapshot() == old(Snapshot()).(medium := Overlay(old(Snapshot()).medium, pos + from, data))
    {
      var rbuf := device.Read(pos, 512);
      OverlayWithin(device.Contents(), pos, 512, from, data);
      Put(pos, Overlay(rbuf, from, data));
    }

    // Writing beyond the blocks of the file, into the gap after it.
    method WriteGrowing(dep: FileEntry, ghost i: nat, offset: nat, data: seq<Byte>, now: Date)
      requires Linked() && i < |files.items| && files.items[i] == dep && now.Valid()
      requires Sound(Snapshot()) && FitsBefore(Snapshot(), i, offset + |data|) && SizeOf(dep.Value()) <= offset + |data|
      modifies dep, device.disk.image
      ensures Linked() && Sound(Snapshot())
      ensures Files(Snapshot())
           == WithBytes(old(Files(Snapshot())), i, Overlaid(old(Files(Snapshot()))[i].bytes, offset, data), now)
    {
      hide Sound, Files, Rewritten, WithBytes, Overlaid, FitsBefore, Overlay, Snapshot, Distinct, SizeOf, ExtentSize,
        Resized, Sized, Blocks, BlocksFor;
      SnapshotEntry(dep, i);
      ghost var s := Snapshot();
      GrowsWithin(s, i, offset + |data|);
      var curSize := dep.GetCurrentSize();
      if offset > curSize {
        var gap := dep.dfirstblock * 512 + curSize;
        PutZeros(gap, offset - curSize);
      }
      var pos := dep.dfirstblock * 512 + offset;
      Put(pos, data);
      SetFileLength(dep, i, offset + |data|, now);
      GrownFiles(s, Snapshot(), i, offset, data, now);
    }

    // write(): everywhere but in a hole it does to the files what a write should; what it
    // does there is as the code has it.
    method Write(dep: FileEntry, ghost i: nat, offset: int, data: seq<Byte>, now: Date) returns (reply: Reply)
      requires Valid() && i < |files.items| && files.items[i] == dep && now.Valid()
      modifies files.items, header`dnumfiles, device.disk.image
      ensures Valid() && header.Value() == old(header.Value()) && sex == old(sex)
      ensures (reply, Files(Snapshot())) == WriteVolume(old(Snapshot()), i, offset, data, now)
      ensures var fs := old(Files(Snapshot()));
        !InHole(fs[i].bytes, offset, data) ==>
          (reply, Files(Snapshot())) == WriteFile(fs, Capacity(header.Value()), i, offset, data, now)
      // so, unless data start past the end of file i and keep to its blocks, a write is
      // refused for a negative offset and for lack of blocks, which changes no file; else
      // the data lie at offset, the old bytes around them, and zeros in between
      ensures var fs, gs := old(Files(Snapshot())), Files(Snapshot());
        var b, n := fs[i].bytes, if offset + |data| > |fs[i].bytes| then offset + |data| else |fs[i].bytes|;
        data == [] || offset <= |b| || (offset + |data| + 511) / 512 > (|b| + 511) / 512 ==>
          && (reply == Failed(EINVAL) <==> offset < 0)
          && (reply == Failed(ENOSPC) <==>
                offset >= 0 && data != [] && BlocksFor(n) > Room(fs, Capacity(header.Value()), i))
          && (reply.Done? ==> reply == Done(|data|))
          && |gs| == |fs| && (forall k: nat | k < |fs| && k != i :: gs[k] == fs[k])
          && (!reply.Done? || data == [] ==> gs == fs)
          && (reply.Done? && data != [] ==>
                && gs[i] == fs[i].(bytes := gs[i].bytes, date := now) && |gs[i].bytes| == n
                && forall k: nat | k < n :: gs[i].bytes[k]
                     == if offset <= k < offset + |data| then data[k - offset] else if k < |b| then b[k] else 0)
      ensures if reply.Done? && data != [] then Stored() else Snapshot() == old(Snapshot()) || Stored()
    {
      hide Sound, Synced, Files, Room, WithBytes, InHole, Overlaid, FitsBefore, HoleFile, WriteVolume, WriteFile,
        BlocksFor, Capacity, RoomFor;
      OutsideHoles(Snapshot(), i, offset, data, now);
      WriteMeans(Files(Snapshot()), Capacity(header.Value()), i, offset, data, now);
      HoleMeans(Files(Snapshot())[i].bytes, offset, data);
      reply := WriteAnywhere(dep, i, offset, data, now);
    }

    method WriteAnywhere(dep: FileEntry, ghost i: nat, offset: int, data: seq<Byte>, now: Date) returns (reply: Reply)
      requires Valid() && i < |files.items| && files.items[i] == dep && now.Valid()
      modifies files.items, header`dnumfiles, device.disk.image
      ensures Valid() && header.Value() == old(header.Value()) && sex == old(sex)
      ensures (reply, Files(Snapshot())) == WriteVolume(old(Snapshot()), i, offset, data, now)
      ensures if reply.Done? && data != [] then Stored() else Snapshot() == old(Snapshot()) || Stored()
    {
      hide Sound, Synced, Files, Room, WithBytes, InHole, Overlaid, FitsBefore, HoleFile, WriteVolume, WriteFile,
        BlocksFor, Capacity, RoomFor;
      if offset < 0 {
        RefusedWrite(Snapshot(), i, offset, data, now);
        return Failed(EINVAL);
      }
      if |data| == 0 {
        RefusedWrite(Snapshot(), i, offset, data, now);
        return Done(0);
      }
      WriteCases(Snapshot(), i, offset, data, now);
      var curExtSize := dep.GetCurrentExtentSize();
      if offset + |data| <= curExtSize {
        reply := WriteWithin(dep, i, offset, data, now);
      } else {
        reply := WriteBeyond(dep, i, offset, data, now);
      }
    }

    // The case in which it needs more.
    method WriteBeyond(dep: FileEntry, ghost i: nat, offset: nat, data: seq<Byte>, now: Date) returns (reply: Reply)
      requires Valid() && i < |files.items| && files.items[i] == dep && now.Valid()
      requires offset + |data| > ExtentSize(dep.Value())
      modifies files.items, header`dnumfiles, device.disk.image
      ensures Valid() && header.Value() == old(header.Value()) && sex == old(sex)
      ensures var fs := old(Files(Snapshot()));
        (reply, Files(Snapshot()))
          == if BlocksFor(offset + |data|) > Room(fs, Capacity(header.Value()), i) then (Failed(ENOSPC), fs)
             else (Done(|data|), WithBytes(fs, i, Overlaid(fs[i].bytes, offset, data), now))
      ensures if reply.Done? then Stored() else Snapshot() == old(Snapshot()) || Stored()
    {
      hide Sound, Synced, Files, Room, WithBytes, Overlaid, FitsBefore, BlocksFor, Capacity, RoomFor;
      SizeWithin(dep, i);
      var enough := MakeRoom(dep, i, offset + |data|);
      if !enough {
        return Failed(ENOSPC);
      }
      SizeWithin(dep, i);
      WriteGrowing(dep, i, offset, data, now);
      Commit();
      return Done(|data|);
    }

    lemma SizeWithin(dep: FileEntry, i: nat)
      requires Valid() && i < |files.items| && files.items[i] == dep
      ensures SizeOf(dep.Value()) == |Files(Snapshot())[i].bytes| <= ExtentSize(dep.Value())
    {
      hide Sound, Files, FitsBefore;
      SnapshotEntry(dep, i);
      FileSize(Snapshot(), i);
      OwnBytes(Snapshot(), i);
    }

    // The cases in which the file keeps its blocks.
    method WriteWithin(dep: FileEntry, ghost i: nat, offset: nat, data: seq<Byte>, now: Date) returns (reply: Reply)
      requires Valid() && i < |files.items| && files.items[i] == dep && now.Valid()
      requires data != [] && offset + |data| <= ExtentSize(dep.Value())
      modifies dep, header`dnumfiles, device.disk.image
      ensures Valid() && header.Value() == old(header.Value()) && sex == old(sex)
      ensures (reply, Files(Snapshot())) == WriteVolume(old(Snapshot()), i, offset, data, now)
      ensures if reply.Done? then Stored() else Snapshot() == old(Snapshot())
    {
      hide Sound, Synced, Files, WriteVolume;
      var curSize := dep.GetCurrentSize();
      if offset + |data| <= curSize {
        WriteInside(dep, i, offset, data, now);
        reply := Done(|data|);
      } else if offset <= curSize {
        WriteToEnd(dep, i, offset, data, now);
        reply := Done(|data|);
      } else {
        reply := WriteInHole(dep, i, offset, data, now);
        if !reply.Done? {
          return;
        }
      }
      Commit();
    }

    // mknod() and add_new_file()
    method MkNod(name: seq<Byte>, kind: nat, now: Date) returns (reply: Reply)
      requires Valid() && |name| > 0 && SLASH !in name && kind < 8 && now.Valid()
      // a larger label admits more entries than the buffer of meta_sync() holds
      requires header.dlastblock > 6 ==> |files.items| < 77
      modifies files, files.list, header, device.disk.image
      ensures Valid() && sex == old(sex) && (files.list == old(files.list) || fresh(files.list))
      ensures header.Value()
           == if reply.Done? then old(header.Value()).(date := now, numFiles := |files.items|) else old(header.Value())
      ensures if reply.Done? then
          |files.items| == |old(files.items)| + 1 && files.items[..|old(files.items)|] == old(files.items)
          && fresh(files.items[|old(files.items)|])
        else files.items == old(files.items)
      ensures (reply, Files(Snapshot()))
           == MkNodFile(old(Files(Snapshot())), old(MaxEntries(header.Value())), name, kind, now)
      // refused when the label allows no more files, or an empty file comes last
      ensures var fs, gs := old(Files(Snapshot())), Files(Snapshot());
        if |fs| >= old(MaxEntries(header.Value())) then reply == Failed(ENOSPC) && gs == fs
        else
          && reply == Done(0) && |gs| == |fs| + 1 && gs[..|fs|] == fs
          && gs[|fs|] == File(if |name| > 15 then name[..15] else name, kind, false, now, [])
      ensures if reply.Done? then Stored() else Snapshot() == old(Snapshot())
    {
      hide Sound, Synced, Files, Sync, MaxEntries;
      ghost var s := Snapshot();
      SyncRoom(s);
      MkNodMeans(Files(s), MaxEntries(header.Value()), name, kind, now);
      var maximum := header.MaximumDirectoryEntries();
      if files.length >= maximum {
        return Failed(ENOSPC);
      }
      RoomForOne(s);
      AddedFiles(s, name, kind, now);
      AddEntry(name, kind, now);
      SyncSame(Snapshot());
      MetaSync();
      return Done(0);
    }

    method AddEntry(name: seq<Byte>, kind: nat, now: Date)
      requires Linked()
      modifies files, files.list, header`when
      ensures Linked() && Snapshot() == Added(old(Snapshot()), name, kind, now)
      ensures files.list == old(files.list) || fresh(files.list)
      ensures |files.items| == |old(files.items)| + 1 && files.items[..|old(files.items)|] == old(files.items)
      ensures fresh(files.items[|old(files.items)|])
    {
      hide Distinct;
      ghost var items, E := files.items, Values(files.items);
      var dep := new FileEntry(device, name, kind, header.deovblk, 0, now);
      DistinctPlus(items, dep);
      header.UpdateTimestamp(now);
      files.PushBack(dep);
      assert Values(files.items) == E + [dep.Value()];
    }

    // unlink() and delete_existing_file(): the files after it keep their order.
    method Unlink(dep: FileEntry, ghost i: nat, now: Date) returns (reply: Reply)
      requires Valid() && i < |files.items| && files.items[i] == dep && now.Valid()
      modifies files, files.list, header, device.disk.image
      ensures Stored() && sex == old(sex) && files.list == old(files.list)
      ensures header.Value() == old(header.Value()).(date := now, numFiles := |files.items|)
      ensures reply == Done(0) && files.items == Without(old(files.items), i)
      ensures Files(Snapshot()) == Without(old(Files(Snapshot())), i)
      ensures Files(Snapshot()) == old(Files(Snapshot()))[..i] + old(Files(Snapshot()))[i + 1..]
    {
      hide Sound, Synced, Files, Sync;
      ghost var s := Snapshot();
      RemovedFiles(s, i, now);
      RemoveEntry(dep, i, now);
      SyncSame(Snapshot());
      MetaSync();
      return Done(0);
    }

    method RemoveEntry(dep: FileEntry, ghost i: nat, now: Date)
      requires Linked() && i < |files.items| && files.items[i] == dep
      modifies files, files.list, header`when
      ensures Linked() && Snapshot() == Removed(old(Snapshot()), i, now)
      ensures files.list == old(files.list) && files.items == Without(old(files.items), i)
    {
      hide Distinct, Without;
      ghost var items, E := files.items, Values(files.items);
      ValuesWithout(items, i);
      var _ := files.Erase(dep);
      ErasedAt(items, dep, i, files.items);
      header.UpdateTimestamp(now);
      assert Values(files.items) == Without(E, i);
    }

    // wipe_unused(): every byte of the volume that no file holds becomes zero.
    method WipeUnused()
      requires Valid()
      modifies device.disk.image
      ensures Valid() && Files(Snapshot()) == old(Files(Snapshot())) && (Stored() <==> old(Stored()))
      ensures Wiped(Values(files.items), old(device.Contents()), device.Contents(), header.dlastblock, header.deovblk)
      // a byte of the volume that is not one of the bytes of a file is zero, all others stay
      ensures var V, W, starts := old(device.Contents()), device.Contents(), Values(files.items);
        forall p: nat | p < device.Length() ::
          if header.dlastblock * 512 <= p < header.deovblk * 512
            && forall i: nat | i < |starts| ::
                 p < starts[i].first * 512 || starts[i].first * 512 + |Files(Snapshot())[i].bytes| <= p
          then W[p] == 0
          else W[p] == V[p]
    {
      hide Synced, Files, Wiped, Layout, ValidEntries, ValidLabel, Sound, Distinct, PrevLast, NextFirst;
      PrevNone(Values(files.items), header.dlastblock, header.deovblk);
      ghost var s, E, V := Snapshot(), Values(files.items), device.Contents();
      ghost var low, eov := header.dlastblock, header.deovblk;
      FirstIsZero(s);
      LayoutOf(s);
      WipedNothing(E, V, low);
      var curblock := header.dlastblock - header.dfirstblock;
      for j := 0 to files.length
        invariant curblock == PrevLast(E, j, low) && Wiped(E, V, device.Contents(), low, curblock)
        modifies device.disk.image
      {
        var fp := files.Nth(j);
        curblock := WipeAround(fp, curblock, j, E, V, low, eov);
      }
      curblock := WipeUpTo(curblock, header.deovblk, files.length, E, V, low, eov);
      WipedSound(s, Snapshot());
      WipedMeans(Snapshot(), V);
    }

    // The blocks before a file, and what its last block has left.
    method WipeAround(fp: FileEntry, first: nat, ghost j: nat,
                      ghost E: seq<Entry>, ghost V: seq<Byte>, ghost low: nat, ghost eov: nat)
      returns (curblock: nat)
      requires device.Ready() && Layout(E, low, eov) && Holds(V, eov) && j < |E| && fp.Value() == E[j]
      requires first == PrevLast(E, j, low) && Wiped(E, V, device.Contents(), low, first)
      modifies device.disk.image
      ensures curblock == PrevLast(E, j + 1, low) && Wiped(E, V, device.Contents(), low, curblock)
    {
      hide Wiped, Layout;
      curblock := WipeUpTo(first, fp.dfirstblock, j, E, V, low, eov);
      WipeTail(fp, curblock, j, E, V, low, eov);
      LayoutEntry(E, low, eov, j);
      curblock := curblock + (fp.dlastblock - fp.dfirstblock);
    }

    // The blocks between two files.
    method WipeUpTo(first: nat, limit: nat, ghost j: nat,
                    ghost E: seq<Entry>, ghost V: seq<Byte>, ghost low: nat, ghost eov: nat)
      returns (curblock: nat)
      requires device.Ready() && Layout(E, low, eov) && Holds(V, eov) && j <= |E|
      requires first == PrevLast(E, j, low) && limit == NextFirst(E, j, eov)
      requires Wiped(E, V, device.Contents(), low, first)
      modifies device.disk.image
      ensures curblock == limit && Wiped(E, V, device.Contents(), low, limit)
    {
      hide Wiped, Layout, Overlay, PrevLast, NextFirst;
      GapLimits(E, low, eov, j);
      curblock := first;
      while curblock < limit
        invariant first <= curblock <= limit && Wiped(E, V, device.Contents(), low, curblock)
      {
        WipedLength(E, V, device.Contents(), low, curblock);
        WipeBlock(E, V, device.Contents(), low, eov, j, curblock);
        device.Write(curblock * 512, Zeros(512));
        curblock := curblock + 1;
      }
    }

    // The bytes after the end of a file in its last block.
    method WipeTail(fp: FileEntry, curblock: nat, ghost j: nat,
                    ghost E: seq<Entry>, ghost V: seq<Byte>, ghost low: nat, ghost eov: nat)
      requires device.Ready() && Layout(E, low, eov) && Holds(V, eov) && j < |E| && fp.Value() == E[j]
      requires curblock == fp.dfirstblock && Wiped(E, V, device.Contents(), low, curblock)
      modifies device.disk.image
      ensures Wiped(E, V, device.Contents(), low, fp.dlastblock)
    {
      hide Wiped, Layout, Overlay;
      WipedLength(E, V, device.Contents(), low, curblock);
      WipeFile(E, V, device.Contents(), low, eov, j);
      var size := fp.GetCurrentSize();
      var partial := size % 512;
      if partial != 0 {
        var blknum := curblock + (fp.dlastblock - fp.dfirstblock) - 1;
        var addr := blknum * 512 + partial;
        var tailSize := 512 - partial;
        device.Write(addr, Zeros(tailSize));
      } else {
        assert Zeros(TailSize(E[j])) == [];
        OverlayNothing(device.Contents(), E[j].first * 512 + SizeOf(E[j]));
      }
    }
  }

  // In a list without repetition there is one place to erase from.
  lemma ErasedAt(items: seq<FileEntry>, dep: FileEntry, i: nat, after: seq<FileEntry>)
    requires Distinct(items) && i < |items| && items[i] == dep
    requires exists j: nat | j < |items| ::
      items[j] == dep && dep !in items[..j] && after == items[..j] + items[j + 1..]
    ensures after == Without(items, i) && Distinct(after)
    ensures forall k: nat | k < |after| :: after[k] in items
  {
  }

  lemma DistinctPlus(items: seq<FileEntry>, dep: FileEntry)
    requires Distinct(items) && dep !in items
    ensures Distinct(items + [dep])
  {
  }

  lemma OnePlace(items: seq<FileEntry>, i: nat, j: nat)
    requires Distinct(items) && i < |items| && j < |items| && items[i] == items[j]
    ensures i == j
  {
  }

  lemma ValuesWithout(items: seq<FileEntry>, i: nat)
    requires i < |items|
    ensures |Without(items, i)| == |items| - 1
    ensures Values(Without(items, i)) == Without(Values(items), i)
  {
  }

  lemma GapLimits(E: seq<Entry>, low: nat, eov: nat, j: nat)
    requires Layout(E, low, eov) && j <= |E|
    ensures low <= PrevLast(E, j, low) <= NextFirst(E, j, eov) <= eov
  {
  }

  lemma WipedStored(E: seq<Entry>, V: seq<Byte>, W: seq<Byte>, low: nat, end: nat, pos: nat, d: seq<Byte>)
    requires Wiped(E, V, W, low, end) && pos + |d| <= low * 512
    ensures StoredAt(W, pos, d) <==> StoredAt(V, pos, d)
  {
  }

  lemma WipedSound(s: State, t: State)
    requires Sound(s) && t == s.(medium := t.medium)
    requires Wiped(s.entries, s.medium, t.medium, s.header.last, s.header.eov)
    ensures Sound(t) && (Synced(t) <==> Synced(s)) && Files(t) == Files(s)
  {
    hide Wiped, Layout, StoredAt, Directory, Contents;
    var d := Directory(s.sex, s.header, s.entries);
    WipedLength(s.entries, s.medium, t.medium, s.header.last, s.header.eov);
    WipedKeeps(s.entries, s.medium, t.medium, s.header.last, s.header.eov);
    SameFiles(s, t);
    WipedStored(s.entries, s.medium, t.medium, s.header.last, s.header.eov, DIRECTORY, d);
    if s.header.last == 10 {
      WipedStored(s.entries, s.medium, t.medium, s.header.last, s.header.eov, DIRECTORY + BUFFER, d);
    }
  }

  lemma PrevNone(E: seq<Entry>, low: nat, eov: nat)
    ensures PrevLast(E, 0, low) == low && NextFirst(E, |E|, eov) == eov
  {
  }

  lemma WipedMeans(s: State, V: seq<Byte>)
    requires Sound(s) && Wiped(s.entries, V, s.medium, s.header.last, s.header.eov)
    ensures |V| == |s.medium|
    ensures forall p: nat | p < |V| ::
      if s.header.last * 512 <= p < s.header.eov * 512
        && forall i: nat | i < |s.entries| ::
             p < s.entries[i].first * 512 || s.entries[i].first * 512 + |Files(s)[i].bytes| <= p
      then s.medium[p] == 0
      else s.medium[p] == V[p]
  {
    hide Sound, Files, SizeOf;
    forall i: nat | i < |s.entries| ensures |Files(s)[i].bytes| == SizeOf(s.entries[i]) {
      FileSize(s, i);
    }
  }

  lemma FitsLess(s: State, i: nat, n: nat, m: nat)
    requires i < |s.entries| && FitsBefore(s, i, n) && m <= n
    ensures FitsBefore(s, i, m)
  {
  }

  // Which case of write() applies, in terms of the bytes of the file.
  lemma RefusedWrite(s: State, i: nat, offset: int, data: seq<Byte>, now: Date)
    requires Sound(s) && i < |s.entries| && (offset < 0 || data == [])
    ensures WriteVolume(s, i, offset, data, now) == (if offset < 0 then Failed(EINVAL) else Done(0), Files(s))
  {
  }

  lemma WriteCases(s: State, i: nat, offset: nat, data: seq<Byte>, now: Date)
    requires Sound(s) && i < |s.entries| && data != []
    ensures var e, w := s.entries[i], WriteVolume(s, i, offset, data, now);
      var over := WithBytes(Files(s), i, Overlaid(Files(s)[i].bytes, offset, data), now);
      if offset + |data| <= ExtentSize(e) then
        if offset <= SizeOf(e) then w == (Done(|data|), over)
        else w == HoleFile(s, i, offset, data, now)
      else if BlocksFor(offset + |data|) > Room(Files(s), Capacity(s.header), i) then w == (Failed(ENOSPC), Files(s))
      else w == (Done(|data|), over)
  {
    hide Sound, Files, Room, WithBytes, Overlaid, HoleFile;
    FileSize(s, i);
    OwnBytes(s, i);
    RoomBefore(s, i);
    Outgrows(offset + |data|, Blocks(s.entries[i]));
  }

  lemma EndWithin(s: State, i: nat, offset: nat, data: seq<Byte>)
    requires Sound(s) && i < |s.entries| && offset + |data| <= ExtentSize(s.entries[i])
    ensures s.entries[i].first * 512 + offset + |data| <= |s.medium|
  {
    hide Sound;
    OwnBytes(s, i);
  }

  // What writing to a place in the last block and setting the length leaves.
  lemma EndFiles(s: State, t: State, i: nat, offset: nat, data: seq<Byte>, now: Date)
    requires Sound(s) && i < |s.entries| && now.Valid()
    requires offset <= SizeOf(s.entries[i]) < offset + |data| <= ExtentSize(s.entries[i])
    requires s.entries[i].first * 512 + offset + |data| <= |s.medium|
    requires t.sex == s.sex && t.header == s.header
    requires t.entries == s.entries[i := s.entries[i].(lastByte := LastByteFor(offset + |data|), date := now)]
    requires t.medium == Overlay(s.medium, s.entries[i].first * 512 + offset, data)
    ensures Sound(t) && Files(t) == WithBytes(Files(s), i, Overlaid(Files(s)[i].bytes, offset, data), now)
  {
    hide Sound, Files, FitsBefore, Overlay, WithBytes, Overlaid;
    OwnBytes(s, i);
    FitsLess(s, i, ExtentSize(s.entries[i]), offset + |data|);
    SameBlocks(s.entries[i], offset + |data|);
    NowOverlaid(s, i, offset, data, now);
    IsRewritten(s, t, i, offset + |data|, offset, data, now);
  }

  // What writing data there and setting the length leaves.
  lemma HoledFiles(s: State, t: State, i: nat, offset: nat, data: seq<Byte>, now: Date)
    requires Sound(s) && i < |s.entries| && now.Valid() && data != []
    requires SizeOf(s.entries[i]) < offset && offset + |data| <= ExtentSize(s.entries[i]) && HoleReadable(s, i, offset)
    requires |data| < 512 - offset % 512
    requires t.sex == s.sex && t.header == s.header
    requires t.entries == s.entries[i := s.entries[i].(lastByte := LastByteFor(offset + |data|), date := now)]
    requires t.medium == Overlay(s.medium, s.entries[i].first * 512 + HolePos(offset) + offset % 512, data)
    ensures Sound(t) && HoleFile(s, i, offset, data, now) == (Done(|data|), Files(t))
  {
    hide Sound, Files, FitsBefore, HoleFile, Overlay;
    var e := s.entries[i];
    OwnBytes(s, i);
    HoleInMedium(s, i, offset, data);
    InLastBlock(e, offset, |data|);
    NowHoled(s, i, offset, data, now);
    SameBlocks(e, offset + |data|);
    IsRewritten(s, t, i, offset + |data|, offset + offset % 2, data, now);
  }

  lemma UnreadHole(s: State, i: nat, offset: nat, data: seq<Byte>, now: Date)
    requires Sound(s) && i < |s.entries| && !HoleReadable(s, i, offset)
    requires SizeOf(s.entries[i]) < offset && data != [] && offset + |data| <= ExtentSize(s.entries[i])
    ensures HoleFile(s, i, offset, data, now) == (Failed(ENOSPC), Files(s))
  {
  }

  lemma NoRoomInBlock(s: State, i: nat, offset: nat, data: seq<Byte>, now: Date)
    requires Sound(s) && i < |s.entries| && HoleReadable(s, i, offset) && |data| >= 512 - offset % 512
    requires SizeOf(s.entries[i]) < offset && data != [] && offset + |data| <= ExtentSize(s.entries[i])
    ensures HoleFile(s, i, offset, data, now) == (Crashed, Files(s))
  {
  }

  lemma ReadBytes(s: State, i: nat, offset: nat, n: nat)
    requires Sound(s) && i < |s.entries|
    ensures var e, size := s.entries[i], SizeOf(s.entries[i]);
      && 0 <= size && e.first * 512 + size <= |s.medium|
      && ReadFile(Files(s), i, offset, n)
           == if offset >= size then []
              else
                var m := if offset + n > size then size - offset else n;
                s.medium[e.first * 512 + offset..e.first * 512 + offset + m]
  {
    hide Sound, Files, FitsBefore, ExtentSize, Blocks, Sized;
    OwnBytes(s, i);
    FileSize(s, i);
    var e, size := s.entries[i], SizeOf(s.entries[i]);
    if offset < size {
      SliceSlice(s.medium, e.first * 512, size, offset, if offset + n > size then size - offset else n);
    }
  }

  function WithEntry(s: State, i: nat, e: Entry): State
    requires i < |s.entries|
  {
    s.(entries := s.entries[i := e])
  }

  lemma IsRewritten(s: State, t: State, i: nat, size: nat, offset: nat, d: seq<Byte>, now: Date)
    requires i < |s.entries| && s.entries[i].first * 512 + offset + |d| <= |s.medium|
    requires t.sex == s.sex && t.header == s.header
    requires t.entries == s.entries[i := Resized(s.entries[i], size).(date := now)]
    requires t.medium == Overlay(s.medium, s.entries[i].first * 512 + offset, d)
    ensures t == Rewritten(s, i, size, offset, d, now)
  {
  }

  lemma GrowsWithin(s: State, i: nat, size: nat)
    requires Sound(s) && i < |s.entries| && FitsBefore(s, i, size)
    ensures 0 <= SizeOf(s.entries[i]) && s.entries[i].first * 512 + Max(size, SizeOf(s.entries[i])) <= |s.medium|
  {
    hide Sound;
    OwnBytes(s, i);
    RewrittenRoom(s, i, size);
  }

  // The medium with zeros from the end of file i up to offset.
  function ZeroFilled(s: State, i: nat, offset: nat): (V: seq<Byte>)
    requires i < |s.entries| && 0 <= SizeOf(s.entries[i])
    requires s.entries[i].first * 512 + Max(offset, SizeOf(s.entries[i])) <= |s.medium|
    ensures |V| == |s.medium|
  {
    var cur := SizeOf(s.entries[i]);
    if offset > cur then Overlay(s.medium, s.entries[i].first * 512 + cur, Zeros(offset - cur)) else s.medium
  }

  // What writing data behind them and setting the length leaves.
  lemma GrownFiles(s: State, t: State, i: nat, offset: nat, data: seq<Byte>, now: Date)
    requires Sound(s) && i < |s.entries| && now.Valid() && FitsBefore(s, i, offset + |data|)
    requires 0 <= SizeOf(s.entries[i]) <= offset + |data| && s.entries[i].first * 512 + offset + |data| <= |s.medium|
    requires t.sex == s.sex && t.header == s.header
    requires t.entries == s.entries[i := Resized(s.entries[i], offset + |data|).(date := now)]
    requires t.medium == Overlay(ZeroFilled(s, i, offset), s.entries[i].first * 512 + offset, data)
    ensures Sound(t) && Files(t) == WithBytes(Files(s), i, Overlaid(Files(s)[i].bytes, offset, data), now)
  {
    hide Sound, Files, FitsBefore, Overlay, WithBytes, Overlaid, SizeOf, Resized;
    var cur := SizeOf(s.entries[i]);
    if offset > cur {
      NowGrown(s, i, offset, data, now);
      OverlayAppend(s.medium, s.entries[i].first * 512 + cur, Zeros(offset - cur), data);
      IsRewritten(s, t, i, offset + |data|, cur, Zeros(offset - cur) + data, now);
    } else {
      NowOverlaid(s, i, offset, data, now);
      IsRewritten(s, t, i, offset + |data|, offset, data, now);
    }
  }

  // The directory stored once, or twice with the large label.
  lemma SyncIs(s: State, t: State, d: seq<Byte>)
    requires Sound(s) && |d| == BUFFER && Holds(s.medium, s.header.last) && s.header.last >= 6
    requires t.sex == s.sex && t.entries == s.entries && t.header == s.header.(numFiles := |s.entries|)
    requires ValidEntries(s.entries) && d == Directory(s.sex, t.header, s.entries)
    requires var once := Overlay(s.medium, DIRECTORY, d);
      t.medium == if s.header.last == 10 then Overlay(once, DIRECTORY + BUFFER, d) else once
    ensures t == Sync(s)
  {
    hide Directory, Overlay;
  }

  // Which bytes storing the directory writes.
  lemma SyncPlaces(s: State)
    requires Sound(s)
    ensures var t, end := Sync(s), if s.header.last == 10 then 5120 else 3072;
      var d := Directory(t.sex, t.header, t.entries);
      && end <= |t.medium| == |s.medium| && t.medium[1024..3072] == d
      && (s.header.last == 10 ==> t.medium[3072..5120] == d)
      && forall p: nat | p < |s.medium| && !(1024 <= p < end) :: t.medium[p] == s.medium[p]
  {
    hide Directory;
    SyncRoom(s);
    LayoutOf(s);
  }

  lemma SyncSame(s: State)
    requires Sound(s)
    ensures Sync(s).sex == s.sex && Sync(s).entries == s.entries && Sync(s).header == s.header.(numFiles := |s.entries|)
  {
  }

  lemma EmptySound(s: State)
    requires ValidLabel(s.header) && s.entries == [] && s.header.last <= s.header.eov && Holds(s.medium, s.header.eov)
    ensures Sound(s)
  {
  }

  lemma LayoutOf(s: State)
    requires Sound(s)
    ensures Layout(s.entries, s.header.last, s.header.eov) && Holds(s.medium, s.header.eov)
  {
  }

  lemma AllUsed(s: State)
    requires Sound(s)
    ensures Used(Files(s)) == Before(s.entries, |s.entries|)
  {
    UsedBlocks(s, |s.entries|);
    assert Files(s)[..|s.entries|] == Files(s);
  }

  lemma FirstIsZero(s: State)
    requires Sound(s)
    ensures s.header.first == 0
  {
  }

  lemma BeforeNone(E: seq<Entry>)
    ensures Before(E, 0) == 0
  {
  }

  lemma FromNone(E: seq<Entry>)
    ensures From(E, |E|) == 0
  {
  }

  lemma BeforeNext(E: seq<Entry>, j: nat)
    requires j < |E|
    ensures Before(E, j + 1) == Before(E, j) + Blocks(E[j])
  {
  }

  lemma EntrySized(s: State, j: nat)
    requires Sound(s) && j < |s.entries|
    ensures Sized(s.entries[j]) && s.entries[j].last <= s.header.eov
  {
  }

  lemma BlocksAre(e: Entry)
    requires Sized(e)
    ensures e.first <= e.last && Blocks(e) == e.last - e.first
  {
  }

  // Where the slide around file idx ends, from below and from above.
  predicate Reached(s0: State, idx: nat, lowBlock: nat, highBlock: nat)
  {
    && idx < |s0.entries| && s0.header.eov >= From(s0.entries, idx + 1)
    && lowBlock == s0.header.last + Before(s0.entries, idx + 1)
    && highBlock == s0.header.eov - From(s0.entries, idx + 1)
  }

  lemma GapState(s0: State, s: State, i: nat, lowBlock: nat, highBlock: nat)
    requires Sound(s0) && Sliding(s0, s, i + 1, i + 1) && Reached(s0, i, lowBlock, highBlock)
    ensures s.entries == Slid(s0.entries, s0.header.last, s0.header.eov, i + 1, i + 1)
    ensures s.header == s0.header && s.sex == s0.sex && Sound(s) && Files(s) == Files(s0)
    ensures highBlock - lowBlock == s0.header.eov - s0.header.last - Used(Files(s)) >= 0
    ensures highBlock - lowBlock == NextFirst(s.entries, i + 1, s.header.eov) - s.entries[i].last
  {
    hide Slid, Files, Used;
    AllUsed(s0);
    GapIsAll(s0.entries, s0.header.last, s0.header.eov, i);
    GapBound(s.entries, s0.header.last, s0.header.eov, i);
  }

  lemma SlidingHeader(s0: State, s: State, j: nat, k: nat)
    requires Sound(s0) && Sliding(s0, s, j, k)
    ensures s.header == s0.header && |s.entries| == |s0.entries| && j <= k <= |s0.entries|
  {
  }

  lemma SlidSync(s0: State, s: State, j: nat, k: nat)
    requires Sound(s0) && s0.header == Numbered(s0) && Sliding(s0, s, j, k)
    ensures Sound(s) && Files(s) == Files(s0)
    ensures Sync(s).header == s0.header && Sync(s).entries == s.entries && Sync(s).sex == s.sex
  {
    hide Slid, Files, Sound;
  }

  lemma SameMoved(V: seq<Byte>, e: Entry)
    requires Sized(e) && Holds(V, e.last)
    ensures Moved(V, e, e.first) == V && At(e, e.first) == e
  {
  }

  lemma DirectoryOf(base: seq<Byte>, l: seq<Byte>, sex: ByteSex, header: Label, E: seq<Entry>)
    requires ValidEntries(E) && base == Zeros(BUFFER) && l == LabelBytes(sex, header)
    ensures Overlay(base, 0, l + EntriesBytes(sex, E)) == Directory(sex, header, E)
  {
  }

  lemma RoomForOne(s: State)
    requires Sound(s) && s.header.last >= s.header.first + 3 && |s.entries| < MaxEntries(s.header)
    ensures s.header.last == 6 ==> |s.entries| < 77
  {
  }

  lemma SyncRoom(s: State)
    requires Sound(s)
    ensures ValidEntries(s.entries) && s.header.last >= s.header.first + 3 && |s.entries| <= MaxEntries(s.header)
    ensures s.header.last >= 6 && Holds(s.medium, s.header.last)
  {
  }
}
