/**
 A volume as a value, and the file system it stands for: an ordered list of named byte
 strings that share a number of blocks.
 */
module VolumeState {
  import opened Bytes
  import opened DirectoryFormat
  import opened Extents

  // ------------------------------------------------------------ file system

  datatype File = File(name: seq<Byte>, kind: nat, status: bool, date: Date, bytes: seq<Byte>)

  datatype Error = EINVAL | ENOSPC

  // A system call returns, or an assertion of the program fails in it.
  datatype Reply = Done(n: nat) | Failed(error: Error) | Crashed

  function Used(fs: seq<File>): nat {
    if fs == [] then 0 else Used(fs[..|fs| - 1]) + BlocksFor(|fs[|fs| - 1].bytes|)
  }

  // The blocks file i may have, given the others.
  function Room(fs: seq<File>, capacity: nat, i: nat): int
    requires i < |fs|
  {
    capacity - (Used(fs) - BlocksFor(|fs[i].bytes|))
  }

  // b cut, or extended with zeros, to size bytes.
  function Cut(b: seq<Byte>, size: nat): (r: seq<Byte>)
    ensures |r| == size
  {
    if size <= |b| then b[..size] else b + Zeros(size - |b|)
  }

  function Max(a: nat, b: nat): nat {
    if a < b then b else a
  }

  // b with data written at offset, zeros filling any hole.
  function Overlaid(b: seq<Byte>, offset: nat, data: seq<Byte>): (r: seq<Byte>)
    ensures |r| == Max(|b|, offset + |data|)
  {
    Overlay(Cut(b, Max(|b|, offset + |data|)), offset, data)
  }

  function WithBytes(fs: seq<File>, i: nat, bytes: seq<Byte>, now: Date): (r: seq<File>)
    requires i < |fs|
    ensures |r| == |fs|
  {
    fs[i := fs[i].(bytes := bytes, date := now)]
  }

  function TruncateFile(fs: seq<File>, capacity: nat, i: nat, size: int, now: Date): (Reply, seq<File>)
    requires i < |fs|
  {
    if size < 0 then (Failed(EINVAL), fs)
    else if BlocksFor(size) > Room(fs, capacity, i) then (Failed(ENOSPC), fs)
    else (Done(0), WithBytes(fs, i, Cut(fs[i].bytes, size), now))
  }

  function WriteFile(fs: seq<File>, capacity: nat, i: nat, offset: int, data: seq<Byte>, now: Date): (Reply, seq<File>)
    requires i < |fs|
  {
    if offset < 0 then (Failed(EINVAL), fs)
    else if data == [] then (Done(0), fs)
    else if BlocksFor(Max(|fs[i].bytes|, offset + |data|)) > Room(fs, capacity, i) then (Failed(ENOSPC), fs)
    else (Done(|data|), WithBytes(fs, i, Overlaid(fs[i].bytes, offset, data), now))
  }

  function ReadFile(fs: seq<File>, i: nat, offset: nat, n: nat): seq<Byte>
    requires i < |fs|
  {
    var b := fs[i].bytes;
    if offset >= |b| then [] else if offset + n > |b| then b[offset..] else b[offset..offset + n]
  }

  // A write that starts past the end of a file and ends within its last block.
  predicate InHole(b: seq<Byte>, offset: int, data: seq<Byte>) {
    data != [] && offset > |b| && BlocksFor(offset + |data|) <= BlocksFor(|b|)
  }

  // ------------------------------------------------- what these say, in bytes

  lemma HoleMeans(b: seq<Byte>, offset: int, data: seq<Byte>)
    ensures InHole(b, offset, data)
       <==> !(data == [] || offset <= |b| || (offset + |data| + 511) / 512 > (|b| + 511) / 512)
  {
  }

  lemma TruncateMeans(fs: seq<File>, capacity: nat, i: nat, size: int, now: Date)
    requires i < |fs|
    ensures var (reply, gs) := TruncateFile(fs, capacity, i, size, now);
      && (reply == Failed(EINVAL) <==> size < 0)
      && (reply == Failed(ENOSPC) <==> size >= 0 && BlocksFor(size) > Room(fs, capacity, i))
      && (size >= 0 && BlocksFor(size) <= Room(fs, capacity, i) ==> reply == Done(0))
      && |gs| == |fs| && (forall k: nat | k < |fs| && k != i :: gs[k] == fs[k])
      && (!reply.Done? ==> gs == fs)
      && (reply.Done? ==>
            && gs[i] == fs[i].(bytes := gs[i].bytes, date := now) && |gs[i].bytes| == size
            && forall k: nat | k < size :: gs[i].bytes[k] == if k < |fs[i].bytes| then fs[i].bytes[k] else 0)
  {
    hide Room, BlocksFor;
  }

  lemma WriteMeans(fs: seq<File>, capacity: nat, i: nat, offset: int, data: seq<Byte>, now: Date)
    requires i < |fs|
    ensures var (reply, gs) := WriteFile(fs, capacity, i, offset, data, now);
      var b, n := fs[i].bytes, if offset + |data| > |fs[i].bytes| then offset + |data| else |fs[i].bytes|;
      && (reply == Failed(EINVAL) <==> offset < 0)
      && (reply == Failed(ENOSPC) <==> offset >= 0 && data != [] && BlocksFor(n) > Room(fs, capacity, i))
      && (reply.Done? ==> reply == Done(|data|))
      && |gs| == |fs| && (forall k: nat | k < |fs| && k != i :: gs[k] == fs[k])
      && (!reply.Done? || data == [] ==> gs == fs)
      && (reply.Done? && data != [] ==>
            && gs[i] == fs[i].(bytes := gs[i].bytes, date := now) && |gs[i].bytes| == n
            && forall k: nat | k < n :: gs[i].bytes[k]
                 == if offset <= k < offset + |data| then data[k - offset] else if k < |b| then b[k] else 0)
  {
    hide Room, BlocksFor, Overlaid;
    if offset >= 0 {
      OverlaidAt(fs[i].bytes, offset, data);
    }
  }

  lemma OverlaidAt(b: seq<Byte>, offset: nat, data: seq<Byte>)
    ensures |Overlaid(b, offset, data)| == if offset + |data| > |b| then offset + |data| else |b|
    ensures var r := Overlaid(b, offset, data);
      forall k: nat | k < |r| ::
        r[k] == if offset <= k < offset + |data| then data[k - offset] else if k < |b| then b[k] else 0
  {
  }

  lemma ReadMeans(fs: seq<File>, i: nat, offset: nat, n: nat)
    requires i < |fs|
    ensures var data, b := ReadFile(fs, i, offset, n), fs[i].bytes;
      && |data| == (if offset >= |b| then 0 else if |b| - offset < n then |b| - offset else n)
      && forall k: nat | k < |data| :: data[k] == b[offset + k]
  {
  }

  lemma MkNodMeans(fs: seq<File>, maxEntries: nat, name: seq<Byte>, kind: nat, now: Date)
    ensures var (reply, gs) := MkNodFile(fs, maxEntries, name, kind, now);
      if |fs| >= maxEntries then reply == Failed(ENOSPC) && gs == fs
      else
        && reply == Done(0) && |gs| == |fs| + 1 && gs[..|fs|] == fs
        && gs[|fs|] == File(if |name| > 15 then name[..15] else name, kind, false, now, [])
  {
  }

  function MkNodFile(fs: seq<File>, maxEntries: nat, name: seq<Byte>, kind: nat, now: Date): (Reply, seq<File>) {
    if |fs| >= maxEntries then (Failed(ENOSPC), fs)
    else (Done(0), fs + [File(Shortened(name), kind, false, now, [])])
  }

  function Shortened(name: seq<Byte>): seq<Byte> {
    if |name| > 15 then name[..15] else name
  }

  // ----------------------------------------------------------------- volumes

  datatype State = State(sex: ByteSex, header: Label, entries: seq<Entry>, medium: seq<Byte>)

  predicate Sound(s: State) {
    && ValidLabel(s.header) && ValidEntries(s.entries)
    && Layout(s.entries, s.header.last, s.header.eov) && Holds(s.medium, s.header.eov)
  }

  function Files(s: State): (fs: seq<File>)
    requires Sound(s)
    ensures |fs| == |s.entries|
    ensures forall i: nat | i < |fs| :: fs[i] == FileAt(s, i)
  {
    seq(|s.entries|, i requires 0 <= i < |s.entries| => FileAt(s, i))
  }

  function FileAt(s: State, i: nat): File
    requires Sound(s) && i < |s.entries|
  {
    LayoutEntry(s.entries, s.header.last, s.header.eov, i);
    var e := s.entries[i];
    File(e.name, e.kind, e.status, e.date, Content(e, s.medium))
  }

  function Capacity(header: Label): nat {
    if header.eov >= header.last then header.eov - header.last else 0
  }

  lemma {:induction false} UsedBlocks(s: State, n: nat)
    requires Sound(s) && n <= |s.entries|
    ensures Used(Files(s)[..n]) == Before(s.entries, n)
    decreases n
  {
    hide Sound, Content;
    if n > 0 {
      UsedBlocks(s, n - 1);
      assert Files(s)[..n][..n - 1] == Files(s)[..n - 1];
      FileSize(s, n - 1);
    }
  }

  lemma FileSize(s: State, i: nat)
    requires Sound(s) && i < |s.entries|
    ensures |Files(s)[i].bytes| == SizeOf(s.entries[i])
    ensures BlocksFor(|Files(s)[i].bytes|) == Blocks(s.entries[i])
  {
  }

  // The room of a file, in terms of the entries.
  lemma RoomBlocks(s: State, i: nat)
    requires Sound(s) && i < |s.entries|
    ensures Room(Files(s), Capacity(s.header), i)
         == s.header.eov - s.header.last - Others(s.entries, i)
  {
    UsedBlocks(s, |s.entries|);
    assert Files(s)[..|s.entries|] == Files(s);
    FileSize(s, i);
  }

  // --------------------------------------------------------------- directory

  const DIRECTORY := 0x400

  // The medium with a directory stored on it, twice when the label has ten blocks.
  function WithDirectory(V: seq<Byte>, low: nat, d: seq<Byte>): (r: seq<Byte>)
    requires |d| == BUFFER && low >= 6 && Holds(V, low)
    ensures |r| == |V|
  {
    if low == 10 then Overlay(Overlay(V, DIRECTORY, d), DIRECTORY + BUFFER, d) else Overlay(V, DIRECTORY, d)
  }

  function Numbered(s: State): Label {
    s.header.(numFiles := |s.entries|)
  }

  // meta_sync()
  function Sync(s: State): State
    requires Sound(s)
  {
    s.(header := Numbered(s),
       medium := WithDirectory(s.medium, s.header.last, Directory(s.sex, Numbered(s), s.entries)))
  }

  predicate StoredAt(V: seq<Byte>, pos: nat, d: seq<Byte>) {
    pos + |d| <= |V| && V[pos..pos + |d|] == d
  }

  // The directory on the medium, and its second copy, say what the objects say.
  predicate Synced(s: State)
    requires Sound(s)
  {
    && s.header == Numbered(s)
    && StoredAt(s.medium, DIRECTORY, Directory(s.sex, s.header, s.entries))
    && (s.header.last == 10 ==> StoredAt(s.medium, DIRECTORY + BUFFER, Directory(s.sex, s.header, s.entries)))
  }

  lemma LowFits(E: seq<Entry>, low: nat, eov: nat)
    requires Layout(E, low, eov)
    ensures low <= eov
  {
  }

  lemma WithDirectoryStored(V: seq<Byte>, low: nat, d: seq<Byte>)
    requires |d| == BUFFER && low >= 6 && Holds(V, low)
    ensures StoredAt(WithDirectory(V, low, d), DIRECTORY, d)
    ensures low == 10 ==> StoredAt(WithDirectory(V, low, d), DIRECTORY + BUFFER, d)
  {
  }

  lemma WithDirectoryKeeps(E: seq<Entry>, V: seq<Byte>, low: nat, eov: nat, d: seq<Byte>)
    requires |d| == BUFFER && low >= 6
    requires Layout(E, low, eov) && Holds(V, eov)
    ensures Contents(E, WithDirectory(V, low, d), low, eov) == Contents(E, V, low, eov)
  {
    hide Overlay, Layout, Contents;
    LowFits(E, low, eov);
    OutsideKept(E, V, low, eov, DIRECTORY, d);
    if low == 10 {
      OutsideKept(E, Overlay(V, DIRECTORY, d), low, eov, DIRECTORY + BUFFER, d);
    }
  }

  // Storing the directory changes no file.
  lemma SyncKeeps(s: State)
    requires Sound(s)
    ensures Sound(Sync(s)) && Synced(Sync(s)) && Files(Sync(s)) == Files(s)
  {
    hide Directory, ValidLabel, Layout, WithDirectory, ValidEntries;
    SyncLabel(s);
    LowFits(s.entries, s.header.last, s.header.eov);
    var d := Directory(s.sex, Numbered(s), s.entries);
    WithDirectoryStored(s.medium, s.header.last, d);
    WithDirectoryKeeps(s.entries, s.medium, s.header.last, s.header.eov, d);
    SameFiles(s, Sync(s));
  }

  lemma SyncLabel(s: State)
    requires Sound(s)
    ensures ValidLabel(Numbered(s)) && s.header.last >= 6 && ValidEntries(s.entries)
  {
  }

  predicate SameInfo(d: Entry, e: Entry) {
    d.name == e.name && d.kind == e.kind && d.status == e.status && d.date == e.date
  }

  // Files are told by what the directory says of them, and their contents.
  lemma SameFiles(s: State, t: State)
    requires Sound(s) && Sound(t) && s.header.last == t.header.last && s.header.eov == t.header.eov
    requires |s.entries| == |t.entries|
    requires forall i: nat | i < |s.entries| ::
        SameInfo(s.entries[i], t.entries[i])
    requires Contents(s.entries, s.medium, s.header.last, s.header.eov)
          == Contents(t.entries, t.medium, t.header.last, t.header.eov)
    ensures Files(s) == Files(t)
  {
  }

  // Reading the stored directory gives back what is in memory.
  lemma SyncedReads(s: State)
    requires Sound(s) && Synced(s)
    ensures DIRECTORY + BUFFER <= |s.medium|
    ensures ReadDirectory(s.medium[DIRECTORY..DIRECTORY + BUFFER]) == Parsed(s.sex, AsStored(s.header), s.entries)
  {
    hide ReadDirectory, Directory;
    DirectoryRoundTrip(s.sex, s.header, s.entries);
  }

  // ----------------------------------------------------------------- sliding

  function RelocateState(s: State, i: nat, to: nat): State
    requires i < |s.entries| && Sized(s.entries[i])
    requires Holds(s.medium, s.entries[i].last) && Holds(s.medium, to + Blocks(s.entries[i]))
  {
    s.(entries := s.entries[i := At(s.entries[i], to)], medium := Moved(s.medium, s.entries[i], to))
  }

  // s is s0 with the first j files pushed down and those from k on pushed up.
  predicate Sliding(s0: State, s: State, j: nat, k: nat)
    requires Sound(s0)
  {
    && j <= k <= |s0.entries|
    && s.header == s0.header && s.sex == s0.sex
    && s.entries == Slid(s0.entries, s0.header.last, s0.header.eov, j, k)
    && Sound(s) && Files(s) == Files(s0)
  }

  lemma SlideStart(s: State)
    requires Sound(s)
    ensures Sliding(s, s, 0, |s.entries|)
  {
  }

  lemma SlidValid(E: seq<Entry>, low: nat, eov: nat, j: nat, k: nat)
    requires Layout(E, low, eov) && ValidEntries(E) && j <= k <= |E| && eov < 65536
    ensures ValidEntries(Slid(E, low, eov, j, k))
  {
    hide Layout, SlidEntry;
    forall i: nat | i < |E| ensures ValidEntry(Slid(E, low, eov, j, k)[i]) {
      SlidFields(E, low, eov, j, k, i);
      SlidBounds(E, low, eov, j, k, i);
      assert ValidEntry(E[i]);
    }
  }

  lemma SlidFields(E: seq<Entry>, low: nat, eov: nat, j: nat, k: nat, i: nat)
    requires Layout(E, low, eov) && j <= k <= |E| && i < |E|
    ensures var e := SlidEntry(E, low, eov, j, k, i);
      SameInfo(e, E[i]) && e.lastByte == E[i].lastByte
  {
  }

  // Moving one file to where the slide wants it.
  lemma SlideStep(s0: State, s: State, j: nat, k: nat, j': nat, k': nat, i: nat, to: nat)
    requires Sound(s0) && Sliding(s0, s, j, k) && j' <= k' <= |s0.entries| && i < |s.entries|
    requires to + Blocks(s.entries[i]) <= s.header.eov
    requires Slid(s0.entries, s0.header.last, s0.header.eov, j', k') == s.entries[i := At(s.entries[i], to)]
    ensures Sized(s.entries[i]) && Holds(s.medium, s.entries[i].last) && Holds(s.medium, to + Blocks(s.entries[i]))
    ensures Sliding(s0, RelocateState(s, i, to), j', k')
  {
    hide Slid, Layout, ValidEntries, Moved, Files;
    var low, eov := s0.header.last, s0.header.eov;
    LayoutEntry(s.entries, low, eov, i);
    SlidLayout(s0.entries, low, eov, j', k');
    SlidValid(s0.entries, low, eov, j', k');
    MoveKeeps(s.entries, s.medium, low, eov, i, to);
    SameFiles(s, RelocateState(s, i, to));
  }

  lemma SlideDown(s0: State, s: State, j: nat)
    requires Sound(s0) && Sliding(s0, s, j, |s0.entries|) && j < |s0.entries|
    ensures var to := s0.header.last + Before(s0.entries, j);
      && Sized(s.entries[j]) && Holds(s.medium, s.entries[j].last) && Holds(s.medium, to + Blocks(s.entries[j]))
      && Sliding(s0, RelocateState(s, j, to), j + 1, |s0.entries|)
      && At(s.entries[j], to).last == s0.header.last + Before(s0.entries, j + 1)
  {
    hide Slid, Layout, ValidEntries, Moved, Files;
    var E, low, eov := s0.entries, s0.header.last, s0.header.eov;
    SlidDown(E, low, eov, j);
    BeforeFits(E, low, eov, j + 1);
    FromFits(E, low, eov, j + 1);
    SlideStep(s0, s, j, |E|, j + 1, |E|, j, low + Before(E, j));
  }

  lemma SlideUp(s0: State, s: State, j: nat, k: nat)
    requires Sound(s0) && Sliding(s0, s, j, k) && j < k
    ensures s0.header.eov >= From(s0.entries, k - 1)
    ensures var to := s0.header.eov - From(s0.entries, k - 1);
      && Sized(s.entries[k - 1]) && Holds(s.medium, s.entries[k - 1].last)
      && Holds(s.medium, to + Blocks(s.entries[k - 1]))
      && to == s0.header.eov - From(s0.entries, k) - Blocks(s.entries[k - 1])
      && Sliding(s0, RelocateState(s, k - 1, to), j, k - 1)
  {
    hide Slid, Layout, ValidEntries, Moved, Files;
    var E, low, eov := s0.entries, s0.header.last, s0.header.eov;
    SlidUp(E, low, eov, j, k);
    SlideStep(s0, s, j, k, j, k - 1, k - 1, eov - From(E, k - 1));
  }

  // ---------------------------------------------------------------- rewriting

  // File i with data put at offset of its extent, its length and date set.
  function Rewritten(s: State, i: nat, size: nat, offset: nat, d: seq<Byte>, now: Date): State
    requires i < |s.entries| && s.entries[i].first * 512 + offset + |d| <= |s.medium|
  {
    s.(entries := s.entries[i := Resized(s.entries[i], size).(date := now)],
       medium := Overlay(s.medium, s.entries[i].first * 512 + offset, d))
  }

  // The room file i has before the next file.
  predicate FitsBefore(s: State, i: nat, n: nat)
    requires i < |s.entries|
  {
    s.entries[i].first * 512 + n <= NextFirst(s.entries, i + 1, s.header.eov) * 512
  }

  lemma RewrittenSound(s: State, i: nat, size: nat, offset: nat, d: seq<Byte>, now: Date)
    requires Sound(s) && i < |s.entries| && now.Valid()
    requires FitsBefore(s, i, size) && FitsBefore(s, i, offset + |d|)
    ensures s.entries[i].first * 512 + offset + |d| <= |s.medium|
    ensures Sound(Rewritten(s, i, size, offset, d, now))
  {
  }

  lemma LastFits(E: seq<Entry>, low: nat, eov: nat, i: nat)
    requires Layout(E, low, eov) && i < |E|
    ensures NextFirst(E, i + 1, eov) <= eov
  {
  }

  // Only file i changes, and it becomes what is now in its place.
  lemma RewrittenFiles(s: State, i: nat, size: nat, offset: nat, d: seq<Byte>, now: Date)
    requires Sound(s) && i < |s.entries| && now.Valid()
    requires FitsBefore(s, i, size) && FitsBefore(s, i, offset + |d|)
    ensures s.entries[i].first * 512 + offset + |d| <= |s.medium| && s.entries[i].first * 512 + size <= |s.medium|
    ensures Sound(Rewritten(s, i, size, offset, d, now))
    ensures var t, base := Rewritten(s, i, size, offset, d, now), s.entries[i].first * 512;
      Files(t) == WithBytes(Files(s), i, t.medium[base..base + size], now)
  {
    hide Sound, Rewritten, FileAt, FitsBefore;
    RewrittenSound(s, i, size, offset, d, now);
    RewrittenOwn(s, i, size, offset, d, now);
    var t, base := Rewritten(s, i, size, offset, d, now), s.entries[i].first * 512;
    forall k: nat | k < |s.entries| && k != i ensures Files(t)[k] == Files(s)[k] {
      RewrittenOther(s, i, size, offset, d, now, k);
    }
    assert FileAt(t, i) == Files(s)[i].(bytes := t.medium[base..base + size], date := now);
  }

  lemma RewrittenOwn(s: State, i: nat, size: nat, offset: nat, d: seq<Byte>, now: Date)
    requires Sound(s) && i < |s.entries| && now.Valid()
    requires FitsBefore(s, i, size) && FitsBefore(s, i, offset + |d|)
    ensures s.entries[i].first * 512 + offset + |d| <= |s.medium| && s.entries[i].first * 512 + size <= |s.medium|
    ensures var t, base := Rewritten(s, i, size, offset, d, now), s.entries[i].first * 512;
      && Sound(t) && |t.entries| == |s.entries| && |t.medium| == |s.medium|
      && FileAt(t, i) == FileAt(s, i).(bytes := t.medium[base..base + size], date := now)
  {
    hide Sound, FitsBefore;
    RewrittenSound(s, i, size, offset, d, now);
    RewrittenRoom(s, i, size);
    SizeRoundTrip(s.entries[i], size);
  }

  lemma RewrittenRoom(s: State, i: nat, size: nat)
    requires Sound(s) && i < |s.entries| && FitsBefore(s, i, size)
    ensures s.entries[i].first * 512 + size <= |s.medium|
  {
    LastFits(s.entries, s.header.last, s.header.eov, i);
  }

  lemma RewrittenOther(s: State, i: nat, size: nat, offset: nat, d: seq<Byte>, now: Date, k: nat)
    requires Sound(s) && i < |s.entries| && now.Valid() && k < |s.entries| && k != i
    requires FitsBefore(s, i, size) && FitsBefore(s, i, offset + |d|)
    ensures s.entries[i].first * 512 + offset + |d| <= |s.medium|
    ensures var t := Rewritten(s, i, size, offset, d, now);
      Sound(t) && |t.entries| == |s.entries| && FileAt(t, k) == FileAt(s, k)
  {
    hide Overlay, Content, ValidEntries, ValidLabel;
    RewrittenSound(s, i, size, offset, d, now);
    OthersKept(s.entries, s.medium, s.header.last, s.header.eov, i, s.entries[i].first * 512 + offset, d, k);
  }

  // ------------------------------------------------------- bytes of one file

  // Zeros written after the last byte extend the file; nothing cuts it.
  lemma CutBytes(V: seq<Byte>, base: nat, cur: nat, size: nat)
    requires base + cur <= |V| && base + size <= |V|
    ensures cur < size
      ==> Overlay(V, base + cur, Zeros(size - cur))[base..base + size] == Cut(V[base..base + cur], size)
    ensures size <= cur ==> V[base..base + size] == Cut(V[base..base + cur], size)
  {
  }

  // Bytes written at or before the end of the file are laid over it.
  lemma OverlaidBytes(V: seq<Byte>, base: nat, cur: nat, offset: nat, data: seq<Byte>)
    requires offset <= cur && base + Max(cur, offset + |data|) <= |V|
    ensures Overlay(V, base + offset, data)[base..base + Max(cur, offset + |data|)]
         == Overlaid(V[base..base + cur], offset, data)
  {
    var b, n := V[base..base + cur], Max(cur, offset + |data|);
    var l, r := Overlay(V, base + offset, data)[base..base + n], Overlaid(b, offset, data);
    assert |l| == |r| == n;
    forall k: nat | k < n ensures l[k] == r[k] {
      assert l[k] == Overlay(V, base + offset, data)[base + k];
    }
  }

  // Zeros up to offset, then the bytes.
  lemma GrownBytes(V: seq<Byte>, base: nat, cur: nat, offset: nat, data: seq<Byte>)
    requires cur < offset && base + offset + |data| <= |V|
    ensures Overlay(V, base + cur, Zeros(offset - cur) + data)[base..base + offset + |data|]
         == Overlaid(V[base..base + cur], offset, data)
  {
    var b, d := V[base..base + cur], Zeros(offset - cur) + data;
    var l, r := Overlay(V, base + cur, d)[base..base + offset + |data|], Overlaid(b, offset, data);
    assert |l| == |r| == offset + |data|;
    forall k: nat | k < offset + |data| ensures l[k] == r[k] {
      assert l[k] == Overlay(V, base + cur, d)[base + k];
    }
  }

  // What a write into the hole leaves: the bytes between the end of the file and
  // offset stay as they are, and data written at an odd offset lands one byte late.
  function HoleBytes(V: seq<Byte>, base: nat, offset: nat, data: seq<Byte>): (r: seq<Byte>)
    requires base + offset + offset % 2 + |data| <= |V|
    ensures |r| == offset + |data|
  {
    Overlay(V, base + offset + offset % 2, data)[base..base + offset + |data|]
  }

  predicate ZerosBetween(V: seq<Byte>, from: nat, to: nat)
    requires to <= |V|
  {
    forall p: nat | from <= p < to :: V[p] == 0
  }

  predicate AllAre(data: seq<Byte>, b: Byte) {
    forall k: nat | k < |data| :: data[k] == b
  }

  // So it does what a write should do exactly when the stale bytes are zeros already,
  // and the offset is even or all bytes are the stale one at offset.
  lemma HoleExactly(V: seq<Byte>, base: nat, cur: nat, offset: nat, data: seq<Byte>)
    requires cur < offset && data != [] && base + offset + offset % 2 + |data| <= |V|
    ensures HoleBytes(V, base, offset, data) == Overlaid(V[base..base + cur], offset, data)
       <==> ZerosBetween(V, base + cur, base + offset) && (offset % 2 == 0 || AllAre(data, V[base + offset]))
  {
    hide HoleBytes, Overlaid;
    var H, O := HoleBytes(V, base, offset, data), Overlaid(V[base..base + cur], offset, data);
    HoleBefore(V, base, cur, offset, data);
    if H == O {
      forall p: nat | base + cur <= p < base + offset ensures V[p] == 0 {
        assert H[p - base] == O[p - base];
      }
      if offset % 2 == 1 {
        HoleRepeats(V, base, cur, offset, data, |data| - 1);
      }
    } else if ZerosBetween(V, base + cur, base + offset) && (offset % 2 == 0 || AllAre(data, V[base + offset])) {
      forall k: nat | k < |H| ensures H[k] == O[k] {
        if k >= offset {
          HoleByte(V, base, cur, offset, data, k - offset);
        }
      }
    }
  }

  lemma HoleBefore(V: seq<Byte>, base: nat, cur: nat, offset: nat, data: seq<Byte>)
    requires cur < offset && base + offset + offset % 2 + |data| <= |V|
    ensures var H, O := HoleBytes(V, base, offset, data), Overlaid(V[base..base + cur], offset, data);
      && |H| == |O| == offset + |data|
      && forall k: nat | k < offset :: H[k] == V[base + k] && O[k] == if k < cur then V[base + k] else 0
  {
  }

  lemma {:induction false} HoleRepeats(V: seq<Byte>, base: nat, cur: nat, offset: nat, data: seq<Byte>, k: nat)
    requires cur < offset && k < |data| && offset % 2 == 1 && base + offset + 1 + |data| <= |V|
    requires HoleBytes(V, base, offset, data) == Overlaid(V[base..base + cur], offset, data)
    ensures forall m: nat | m <= k :: data[m] == V[base + offset]
  {
    hide HoleBytes, Overlaid;
    HoleByte(V, base, cur, offset, data, k);
    if k > 0 {
      HoleRepeats(V, base, cur, offset, data, k - 1);
    }
  }

  // Where data should be there is the byte before it.
  lemma HoleByte(V: seq<Byte>, base: nat, cur: nat, offset: nat, data: seq<Byte>, k: nat)
    requires cur < offset && k < |data| && base + offset + offset % 2 + |data| <= |V|
    ensures HoleBytes(V, base, offset, data)[offset + k]
         == if offset % 2 == 0 then data[k] else if k == 0 then V[base + offset] else data[k - 1]
    ensures Overlaid(V[base..base + cur], offset, data)[offset + k] == data[k]
  {
    hide Overlay;
    var W, at := Overlay(V, base + offset + offset % 2, data), base + offset;
    assert HoleBytes(V, base, offset, data)[offset + k] == W[at + k];
    if offset % 2 == 1 && k > 0 {
      assert W[at + k] == data[k - 1];
    }
  }

  // ------------------------------------------------- truncate and write, as values

  lemma NowTruncated(s: State, i: nat, size: nat, now: Date)
    requires Sound(s) && i < |s.entries| && now.Valid() && FitsBefore(s, i, size)
    ensures var e := s.entries[i];
      && 0 <= SizeOf(e) && e.first * 512 + SizeOf(e) <= |s.medium| && e.first * 512 + size <= |s.medium|
      && Sound(TruncatedState(s, i, size, now))
      && Files(TruncatedState(s, i, size, now)) == WithBytes(Files(s), i, Cut(Files(s)[i].bytes, size), now)
  {
    hide Sound, Files, Overlay, Rewritten, Cut, WithBytes, FitsBefore, ExtentSize, Blocks;
    OwnBytes(s, i);
    CutEdges(s, i, size, now);
    FitsNone(s, i, size);
    var cur := SizeOf(s.entries[i]);
    CutBytes(s.medium, s.entries[i].first * 512, cur, size);
    if size > cur {
      NowRewritten(s, i, size, cur, Zeros(size - cur), now);
    } else {
      NowRewritten(s, i, size, 0, [], now);
      OverlayNothing(s.medium, s.entries[i].first * 512);
    }
  }

  lemma NowRewritten(s: State, i: nat, size: nat, offset: nat, d: seq<Byte>, now: Date)
    requires Sound(s) && i < |s.entries| && now.Valid()
    requires FitsBefore(s, i, size) && FitsBefore(s, i, offset + |d|)
    ensures var base := s.entries[i].first * 512;
      && base + offset + |d| <= |s.medium| && base + size <= |s.medium|
      && Sound(Rewritten(s, i, size, offset, d, now))
      && Files(Rewritten(s, i, size, offset, d, now))
           == WithBytes(Files(s), i, Overlay(s.medium, base + offset, d)[base..base + size], now)
  {
    hide Sound, Files, Overlay, Rewritten;
    RewrittenFiles(s, i, size, offset, d, now);
    RewrittenMedium(s, i, size, offset, d, now);
  }

  lemma FitsNone(s: State, i: nat, size: nat)
    requires i < |s.entries| && FitsBefore(s, i, size)
    ensures FitsBefore(s, i, 0)
  {
  }

  lemma CutEdges(s: State, i: nat, size: nat, now: Date)
    requires Sound(s) && i < |s.entries| && now.Valid() && FitsBefore(s, i, size)
    ensures s.entries[i].first * 512 + size <= |s.medium|
  {
  }

  // Zeros after the end of file i if it grows, and its new length.
  function TruncatedState(s: State, i: nat, size: nat, now: Date): State
    requires i < |s.entries| && 0 <= SizeOf(s.entries[i])
    requires s.entries[i].first * 512 + Max(size, SizeOf(s.entries[i])) <= |s.medium|
  {
    var cur := SizeOf(s.entries[i]);
    if size > cur then Rewritten(s, i, size, cur, Zeros(size - cur), now)
    else Rewritten(s, i, size, 0, [], now)
  }

  lemma RewrittenMedium(s: State, i: nat, size: nat, offset: nat, d: seq<Byte>, now: Date)
    requires i < |s.entries| && s.entries[i].first * 512 + offset + |d| <= |s.medium|
    ensures Rewritten(s, i, size, offset, d, now).medium == Overlay(s.medium, s.entries[i].first * 512 + offset, d)
  {
  }

  // What a file holds, and the room it has already.
  lemma OwnBytes(s: State, i: nat)
    requires Sound(s) && i < |s.entries|
    ensures var e := s.entries[i];
      && Sized(e) && 0 <= SizeOf(e) <= ExtentSize(e) == 512 * Blocks(e) && e.first * 512 + ExtentSize(e) <= |s.medium|
      && Files(s)[i].bytes == s.medium[e.first * 512..e.first * 512 + SizeOf(e)]
      && FitsBefore(s, i, ExtentSize(e)) && FitsBefore(s, i, SizeOf(e))
  {
  }

  // What else is known of it is in its entry.
  lemma OwnFields(s: State, i: nat)
    requires Sound(s) && i < |s.entries|
    ensures var f, e := Files(s)[i], s.entries[i];
      && f.name == e.name && f.kind == e.kind && f.status == e.status && f.date == e.date
      && |f.bytes| == if e.first == e.last then 0 else (e.last - e.first - 1) * 512 + e.lastByte
  {
  }

  // Writing at or before the end of the file.
  lemma NowOverlaid(s: State, i: nat, offset: nat, data: seq<Byte>, now: Date)
    requires Sound(s) && i < |s.entries| && now.Valid()
    requires offset <= SizeOf(s.entries[i]) && FitsBefore(s, i, offset + |data|)
    ensures var e := s.entries[i];
      && 0 <= SizeOf(e) && e.first * 512 + offset + |data| <= |s.medium|
      && var t := Rewritten(s, i, Max(SizeOf(e), offset + |data|), offset, data, now);
      && Sound(t) && Files(t) == WithBytes(Files(s), i, Overlaid(Files(s)[i].bytes, offset, data), now)
  {
    hide Sound, Files, Overlay, Rewritten, Overlaid;
    var e := s.entries[i];
    OwnBytes(s, i);
    var size := Max(SizeOf(e), offset + |data|);
    RewrittenFiles(s, i, size, offset, data, now);
    RewrittenMedium(s, i, size, offset, data, now);
    OverlaidBytes(s.medium, e.first * 512, SizeOf(e), offset, data);
  }

  // Zeros from the end of file i up to offset, then data, and its new length.
  function GrownState(s: State, i: nat, offset: nat, data: seq<Byte>, now: Date): State
    requires i < |s.entries| && 0 <= SizeOf(s.entries[i]) < offset
    requires s.entries[i].first * 512 + offset + |data| <= |s.medium|
  {
    var cur := SizeOf(s.entries[i]);
    Rewritten(s, i, offset + |data|, cur, Zeros(offset - cur) + data, now)
  }

  // Writing past the end of the file, with zeros put in between.
  lemma NowGrown(s: State, i: nat, offset: nat, data: seq<Byte>, now: Date)
    requires Sound(s) && i < |s.entries| && now.Valid()
    requires offset > SizeOf(s.entries[i]) && FitsBefore(s, i, offset + |data|)
    ensures var e := s.entries[i];
      && 0 <= SizeOf(e) && e.first * 512 + offset + |data| <= |s.medium|
      && var t := GrownState(s, i, offset, data, now);
      && Sound(t) && Files(t) == WithBytes(Files(s), i, Overlaid(Files(s)[i].bytes, offset, data), now)
  {
    hide Sound, Files, Overlay, Rewritten, Overlaid;
    var e := s.entries[i];
    OwnBytes(s, i);
    var d := Zeros(offset - SizeOf(e)) + data;
    RewrittenFiles(s, i, offset + |data|, SizeOf(e), d, now);
    RewrittenMedium(s, i, offset + |data|, SizeOf(e), d, now);
    GrownBytes(s.medium, e.first * 512, SizeOf(e), offset, data);
  }

  // offset & -511: the block of offset, and its lowest bit.
  function HolePos(offset: nat): nat {
    offset / 512 * 512 + offset % 2
  }

  // A place past the end of the file but within its blocks is in the last of them.
  lemma InLastBlock(e: Entry, offset: nat, n: nat)
    requires Sized(e) && SizeOf(e) < offset && 0 < n && offset + n < ExtentSize(e)
    ensures HolePos(offset) + offset % 512 == offset + offset % 2 && offset % 512 + n < 512
  {
  }

  // The 512 bytes read before writing into the hole are there.
  predicate HoleReadable(s: State, i: nat, offset: nat)
    requires i < |s.entries|
  {
    s.entries[i].first * 512 + HolePos(offset) + 512 <= |s.medium|
  }

  // Writing into the hole: those bytes are read first, and the data must end before
  // them.
  function HoleFile(s: State, i: nat, offset: nat, data: seq<Byte>, now: Date): (Reply, seq<File>)
    requires Sound(s) && i < |s.entries|
    requires SizeOf(s.entries[i]) < offset && data != [] && offset + |data| <= ExtentSize(s.entries[i])
  {
    if !HoleReadable(s, i, offset) then (Failed(ENOSPC), Files(s))
    else if |data| >= 512 - offset % 512 then (Crashed, Files(s))
    else
      HoleInMedium(s, i, offset, data);
      (Done(|data|), WithBytes(Files(s), i, HoleBytes(s.medium, s.entries[i].first * 512, offset, data), now))
  }

  lemma HoleInMedium(s: State, i: nat, offset: nat, data: seq<Byte>)
    requires Sound(s) && i < |s.entries| && SizeOf(s.entries[i]) < offset && data != []
    requires offset + |data| <= ExtentSize(s.entries[i]) && |data| < 512 - offset % 512
    ensures offset + |data| < ExtentSize(s.entries[i])
    ensures s.entries[i].first * 512 + offset + offset % 2 + |data| <= |s.medium|
  {
    hide Sound;
    OwnBytes(s, i);
    LastBlockEnd(s.entries[i], offset, |data|);
  }

  lemma LastBlockEnd(e: Entry, offset: nat, n: nat)
    requires Sized(e) && SizeOf(e) < offset && 0 < n && offset + n <= ExtentSize(e)
    ensures offset + n == ExtentSize(e) <==> n >= 512 - offset % 512
  {
  }

  lemma NowHoled(s: State, i: nat, offset: nat, data: seq<Byte>, now: Date)
    requires Sound(s) && i < |s.entries| && now.Valid()
    requires SizeOf(s.entries[i]) < offset && data != [] && offset + |data| <= ExtentSize(s.entries[i])
    requires HoleReadable(s, i, offset) && |data| < 512 - offset % 512
    ensures var e := s.entries[i];
      && e.first * 512 + offset + offset % 2 + |data| <= |s.medium|
      && var t := Rewritten(s, i, offset + |data|, offset + offset % 2, data, now);
      && Sound(t) && HoleFile(s, i, offset, data, now) == (Done(|data|), Files(t))
  {
    hide Sound, Files, Overlay, Rewritten;
    OwnBytes(s, i);
    HoleInMedium(s, i, offset, data);
    RewrittenFiles(s, i, offset + |data|, offset + offset % 2, data, now);
    RewrittenMedium(s, i, offset + |data|, offset + offset % 2, data, now);
  }

  // A write into the hole fails an assertion of the program.
  predicate Aborts(s: State, i: nat, offset: int, data: seq<Byte>)
    requires Sound(s) && i < |s.entries|
  {
    InHole(Files(s)[i].bytes, offset, data) && HoleReadable(s, i, offset) && |data| >= 512 - offset % 512
  }

  // The reading fails only at an odd offset in the last block of the medium.
  lemma ReadableUnlessLast(s: State, i: nat, offset: nat, data: seq<Byte>)
    requires Sound(s) && i < |s.entries| && InHole(Files(s)[i].bytes, offset, data)
    ensures HoleReadable(s, i, offset) <==> offset % 2 == 0 || s.entries[i].last * 512 < |s.medium|
  {
    hide Sound, Files;
    HoleBound(s, i, offset, data);
    OwnBytes(s, i);
    FileSize(s, i);
    LastBlockStart(s.entries[i], offset);
  }

  lemma LastBlockStart(e: Entry, offset: nat)
    requires Sized(e) && SizeOf(e) < offset < ExtentSize(e)
    ensures e.first * 512 + HolePos(offset) + 512 == e.last * 512 + offset % 2
  {
  }

  // What write() does to the files.
  function WriteVolume(s: State, i: nat, offset: int, data: seq<Byte>, now: Date): (Reply, seq<File>)
    requires Sound(s) && i < |s.entries|
  {
    if InHole(Files(s)[i].bytes, offset, data) then
      HoleBound(s, i, offset, data);
      HoleFile(s, i, offset, data, now)
    else WriteFile(Files(s), Capacity(s.header), i, offset, data, now)
  }

  lemma HoleBound(s: State, i: nat, offset: nat, data: seq<Byte>)
    requires Sound(s) && i < |s.entries|
    requires InHole(Files(s)[i].bytes, offset, data)
    ensures SizeOf(s.entries[i]) == |Files(s)[i].bytes| < offset && offset + |data| <= ExtentSize(s.entries[i])
  {
  }

  // The program stops exactly at a write into the hole that reaches the end of the
  // block, unless the reading before it already fails.
  lemma AbortsExactly(s: State, i: nat, offset: int, data: seq<Byte>, now: Date)
    requires Sound(s) && i < |s.entries|
    ensures WriteVolume(s, i, offset, data, now).0 == Crashed <==> Aborts(s, i, offset, data)
    ensures Aborts(s, i, offset, data)
       <==> && InHole(Files(s)[i].bytes, offset, data)
            && offset + |data| == 512 * BlocksFor(|Files(s)[i].bytes|)
            && (offset % 2 == 0 || s.entries[i].last * 512 < |s.medium|)
  {
    hide Sound, Files, HoleBytes;
    if InHole(Files(s)[i].bytes, offset, data) {
      HoleBound(s, i, offset, data);
      OwnBytes(s, i);
      FileSize(s, i);
      LastBlockEnd(s.entries[i], offset, |data|);
      ReadableUnlessLast(s, i, offset, data);
    }
  }

  lemma OutsideHoles(s: State, i: nat, offset: int, data: seq<Byte>, now: Date)
    requires Sound(s) && i < |s.entries|
    ensures !InHole(Files(s)[i].bytes, offset, data) ==>
      WriteVolume(s, i, offset, data, now) == WriteFile(Files(s), Capacity(s.header), i, offset, data, now)
  {
  }

  // In a hole it is what a write should do exactly when the 512 bytes can be read, the
  // data end before them, the stale bytes skipped are zeros, and the offset is even or
  // all data are the stale byte there.
  lemma HolesExactly(s: State, i: nat, offset: nat, data: seq<Byte>, now: Date)
    requires Sound(s) && i < |s.entries| && InHole(Files(s)[i].bytes, offset, data)
    ensures var base := s.entries[i].first * 512;
      && base + offset + |data| <= |s.medium|
      && (WriteVolume(s, i, offset, data, now) == WriteFile(Files(s), Capacity(s.header), i, offset, data, now)
          <==> && HoleReadable(s, i, offset)
               && offset % 512 + |data| < 512
               && ZerosBetween(s.medium, base + |Files(s)[i].bytes|, base + offset)
               && (offset % 2 == 0 || AllAre(data, s.medium[base + offset])))
  {
    hide Sound, Files, HoleBytes, Overlaid, ZerosBetween, AllAre, Room, WithBytes;
    HoleBound(s, i, offset, data);
    OwnBytes(s, i);
    RoomBefore(s, i);
    FileSize(s, i);
    Outgrows(offset + |data|, Blocks(s.entries[i]));
    var base, b := s.entries[i].first * 512, Files(s)[i].bytes;
    if HoleReadable(s, i, offset) && offset % 512 + |data| < 512 {
      HoleInMedium(s, i, offset, data);
      HoleExactly(s.medium, base, |b|, offset, data);
      BytesTell(Files(s), i, HoleBytes(s.medium, base, offset, data), Overlaid(b, offset, data), now);
    }
  }

  // One file of one byte, in a block full of stale ones.
  function StaleBlock(): (s: State)
    ensures Sound(s) && |s.entries| == 1 && Files(s)[0].bytes == [66] && s.header.eov == 7
  {
    var s := State(LittleEndian, Label(0, 6, 0, [86], 7, 1, 0, Date(1970, 1, 1), 0, 0),
                   [Entry(6, 7, 0, false, [65], 1, Date(1970, 1, 1))], seq(3584, k => 66));
    assert ValidEntry(s.entries[0]);
    OwnBytes(s, 0);
    assert s.medium[3072..3073] == [66];
    s
  }

  // The same with its directory stored, as mounting its medium gives it.
  function StaleVolume(): State {
    Sync(StaleBlock())
  }

  lemma StaleMounted()
    ensures var s := StaleVolume();
      && Sound(s) && Synced(s) && |s.entries| == 1 && Files(s)[0].bytes == [66] && DIRECTORY + BUFFER <= |s.medium|
      && ReadDirectory(s.medium[DIRECTORY..DIRECTORY + BUFFER]) == Parsed(s.sex, s.header, s.entries)
    ensures var s := StaleVolume(); s.entries[0].first == 6 && |s.medium| > 3073 && s.medium[3073] == 66
  {
    var s := StaleBlock();
    assert s.medium[3073] == 66;
    hide ReadDirectory, Directory;
    SyncKeeps(s);
    SyncedReads(StaleVolume());
  }

  // One stale byte is enough: written two places further on, 67 comes after a 66
  // that should be a 0.
  lemma HoleFails(now: Date)
    requires now.Valid()
    ensures var s := StaleVolume();
      && Sound(s) && Synced(s) && |s.entries| == 1
      && WriteVolume(s, 0, 2, [67], now) != WriteFile(Files(s), Capacity(s.header), 0, 2, [67], now)
  {
    hide StaleVolume, Sound, Synced, Files, WriteVolume, WriteFile, Capacity, ReadDirectory;
    StaleMounted();
    StaleHole(StaleVolume(), now);
  }

  lemma StaleHole(s: State, now: Date)
    requires Sound(s) && |s.entries| == 1 && s.entries[0].first == 6 && Files(s)[0].bytes == [66]
    requires |s.medium| > 3073 && s.medium[3073] == 66
    ensures WriteVolume(s, 0, 2, [67], now) != WriteFile(Files(s), Capacity(s.header), 0, 2, [67], now)
  {
    hide Sound, Files, WriteVolume, WriteFile, Capacity, HoleReadable, AllAre;
    assert BlocksFor(1) == 1;
    HolesExactly(s, 0, 2, [67], now);
    assert !ZerosBetween(s.medium, 3073, 3074);
  }

  // Filling the block from its third byte on fails the assertion.
  lemma AbortsThere()
    ensures var s := StaleVolume(); Sound(s) && Synced(s) && |s.entries| == 1 && Aborts(s, 0, 2, Zeros(510))
  {
    hide StaleVolume, Sound, Synced, Files, Aborts, ReadDirectory;
    StaleMounted();
    StaleFilled(StaleVolume());
  }

  lemma StaleFilled(s: State)
    requires Sound(s) && |s.entries| == 1 && Files(s)[0].bytes == [66]
    ensures Aborts(s, 0, 2, Zeros(510))
  {
    hide Sound, Files, HoleReadable;
    assert BlocksFor(1) == 1 && BlocksFor(512) == 1;
    ReadableUnlessLast(s, 0, 2, Zeros(510));
  }

  lemma BytesTell(fs: seq<File>, i: nat, a: seq<Byte>, b: seq<Byte>, now: Date)
    requires i < |fs|
    ensures WithBytes(fs, i, a, now) == WithBytes(fs, i, b, now) <==> a == b
  {
    assert WithBytes(fs, i, a, now)[i].bytes == a && WithBytes(fs, i, b, now)[i].bytes == b;
  }

  // How far file i could reach, before and after the gap is moved.
  lemma RoomBefore(s: State, i: nat)
    requires Sound(s) && i < |s.entries|
    ensures s.entries[i].first <= s.entries[i].last <= NextFirst(s.entries, i + 1, s.header.eov)
    ensures NextFirst(s.entries, i + 1, s.header.eov) - s.entries[i].first <= Room(Files(s), Capacity(s.header), i)
  {
    RoomBlocks(s, i);
    GapBound(s.entries, s.header.last, s.header.eov, i);
    LayoutEntry(s.entries, s.header.last, s.header.eov, i);
  }

  lemma RoomAfter(s0: State, s: State, i: nat)
    requires Sound(s0) && Sound(s) && i < |s0.entries| && s.header == s0.header
    requires s.entries == Slid(s0.entries, s0.header.last, s0.header.eov, i + 1, i + 1)
    ensures NextFirst(s.entries, i + 1, s.header.eov) - s.entries[i].first == Room(Files(s0), Capacity(s0.header), i)
  {
    hide Slid;
    RoomBlocks(s0, i);
    GapIsAll(s0.entries, s0.header.last, s0.header.eov, i);
  }

  // Whether the gap after file i is enough for size bytes, and if so, whether they
  // fit at all.
  lemma RoomNow(s: State, i: nat, size: nat)
    requires Sound(s) && i < |s.entries|
    ensures FitsBefore(s, i, size)
       <==> size <= (NextFirst(s.entries, i + 1, s.header.eov) - s.entries[i].first) * 512
    ensures FitsBefore(s, i, size) ==> BlocksFor(size) <= Room(Files(s), Capacity(s.header), i)
  {
    hide Sound, Files, Room, NextFirst;
    RoomBefore(s, i);
    Outgrows(size, NextFirst(s.entries, i + 1, s.header.eov) - s.entries[i].first);
  }

  // With the gap moved there, the two are the same.
  lemma RoomMade(s0: State, s: State, i: nat, size: nat)
    requires Sound(s0) && Sound(s) && i < |s0.entries| && s.header == s0.header
    requires s.entries == Slid(s0.entries, s0.header.last, s0.header.eov, i + 1, i + 1)
    ensures i < |s.entries|
    ensures FitsBefore(s, i, size)
       <==> size <= (NextFirst(s.entries, i + 1, s.header.eov) - s.entries[i].first) * 512
    ensures FitsBefore(s, i, size) <==> BlocksFor(size) <= Room(Files(s0), Capacity(s0.header), i)
  {
    hide Sound, Files, Room, NextFirst, Slid;
    RoomAfter(s0, s, i);
    RoomBefore(s, i);
    Outgrows(size, NextFirst(s.entries, i + 1, s.header.eov) - s.entries[i].first);
  }

  // ------------------------------------------------------- adding and removing

  function Without<T>(s: seq<T>, i: nat): seq<T>
    requires i < |s|
  {
    s[..i] + s[i + 1..]
  }

  // A file without blocks at the end of the volume.
  function Added(s: State, name: seq<Byte>, kind: nat, now: Date): State {
    s.(header := s.header.(date := now),
       entries := s.entries + [Entry(s.header.eov, s.header.eov, kind, false, Shortened(name), 512, now)])
  }

  lemma AddedFiles(s: State, name: seq<Byte>, kind: nat, now: Date)
    requires Sound(s) && |s.entries| < 77 && kind < 8 && now.Valid() && |name| > 0 && SLASH !in name
    ensures Sound(Added(s, name, kind, now))
    ensures Files(Added(s, name, kind, now)) == Files(s) + [File(Shortened(name), kind, false, now, [])]
  {
  }

  function Removed(s: State, i: nat, now: Date): State
    requires i < |s.entries|
  {
    s.(header := s.header.(date := now), entries := Without(s.entries, i))
  }

  lemma RemovedFiles(s: State, i: nat, now: Date)
    requires Sound(s) && i < |s.entries| && now.Valid()
    ensures Sound(Removed(s, i, now)) && Files(Removed(s, i, now)) == Without(Files(s), i)
  {
  }
}
