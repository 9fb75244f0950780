/**
 The objects of a directory: file entries, the volume label, and the ordered list
 the entries are kept in.
 */
module DirectoryEntries {
  import opened Bytes
  import opened DirectoryFormat
  import opened Extents
  import opened Devices

  // ----------------------------------------------------------- filling buffers

  // byte_sex_put_word()
  method PutWord(sex: ByteSex, buffer: array<Byte>, at: nat, value: nat)
    requires at + 2 <= buffer.Length
    modifies buffer
    ensures buffer[..] == Overlay(old(buffer[..]), at, WordBytes(sex, value))
  {
    match sex
    case LittleEndian =>
      buffer[at] := value % 256;
      buffer[at + 1] := value / 256 % 256;
    case BigEndian =>
      buffer[at] := value / 256 % 256;
      buffer[at + 1] := value % 256;
  }

  // Appending to what has been put into a buffer from start on.
  method PutNext(sex: ByteSex, buffer: array<Byte>, at: nat, value: nat,
                 ghost start: nat, ghost base: seq<Byte>, ghost done: seq<Byte>)
    requires at == start + |done| && at + 2 <= buffer.Length == |base|
    requires buffer[..] == Overlay(base, start, done)
    modifies buffer
    ensures buffer[..] == Overlay(base, start, done + WordBytes(sex, value))
  {
    hide Overlay, WordBytes;
    OverlayAppend(base, start, done, WordBytes(sex, value));
    PutWord(sex, buffer, at, value);
  }

  class FileEntry {
    const device: Device
    var dfirstblock: nat
    var dlastblock: nat
    var dfkind: nat
    var status: bool
    var name: seq<Byte>
    var dlastbyte: nat
    var when: Date

    // A file without blocks, about to be added.
    constructor (d: Device, aName: seq<Byte>, kind: nat, block: nat, numBlocks: nat, now: Date)
      ensures device == d
      ensures Value()
        == Entry(block, block + numBlocks, kind, false, if |aName| > 15 then aName[..15] else aName, 512, now)
    {
      device := d;
      dfirstblock, dlastblock, dfkind, status, dlastbyte, when := block, block + numBlocks, kind, false, 512, now;
      name := if |aName| > 15 then aName[..15] else aName;
    }

    // A file read from the directory.
    constructor FromBytes(d: Device, sex: ByteSex, data: seq<Byte>)
      requires |data| >= ENTRY
      ensures device == d && Value() == ReadEntry(sex, data)
    {
      device := d;
      dfirstblock := Word(sex, data[0], data[1]);
      dlastblock := Word(sex, data[2], data[3]);
      dfkind := Word(sex, data[4], data[5]) % 8;
      status := Word(sex, data[4], data[5]) / 32768 % 2 == 1;
      name := NameAt(data);
      dlastbyte := Word(sex, data[22], data[23]) % 1024;
      when := WordDate(Word(sex, data[24], data[25]));
    }

    function Value(): Entry
      reads this
    {
      Entry(dfirstblock, dlastblock, dfkind, status, name, dlastbyte, when)
    }

    // The size is the one that needs just the blocks the file has: giving the
    // file the length it has changes nothing.
    method GetCurrentSize() returns (n: int)
      ensures n == SizeOf(Value())
      ensures Sized(Value()) ==>
        && 0 <= n && BlocksFor(n) == Blocks(Value())
        && (n > 0 ==> Resized(Value(), n) == Value())
    {
      if Sized(Value()) {
        Snug(Value());
        SameLength(Value());
      }
      if dfirstblock >= dlastblock {
        return 0;
      }
      return (dlastblock - dfirstblock - 1) * 512 + dlastbyte;
    }

    // The bytes of all blocks of the file: what it can grow to where it is.
    method GetCurrentExtentSize() returns (n: nat)
      ensures n == ExtentSize(Value())
      ensures RoomFor(Blocks(Value()), n)
    {
      RoomOf(Blocks(Value()));
      if dfirstblock >= dlastblock {
        return 0;
      }
      return (dlastblock - dfirstblock) * 512;
    }

    method Touch(now: Date)
      modifies this`when
      ensures Value() == old(Value()).(date := now)
    {
      when := now;
    }

    // The end of both write() and truncate(): the new length.
    method SetLastByte(size: nat, now: Date)
      modifies this`dlastbyte, this`when
      ensures Value() == old(Value()).(lastByte := LastByteFor(size), date := now)
    {
      dlastbyte := size % 512;
      if dlastbyte == 0 {
        dlastbyte := 512;
      }
      when := now;
    }

    method SetLength(size: nat, now: Date)
      modifies this`dlastblock, this`dlastbyte, this`when
      ensures Value() == Resized(old(Value()), size).(date := now)
      // all blocks but the last are full, and it has from 1 to 512 bytes
      ensures dfirstblock == old(dfirstblock) && 1 <= dlastbyte <= 512 && when == now
      ensures if size == 0 then dlastblock == dfirstblock
        else dlastblock > dfirstblock && (dlastblock - dfirstblock - 1) * 512 + dlastbyte == size
    {
      ResizedFields(Value(), size);
      dlastblock := dfirstblock + (size + 511) / 512;
      SetLastByte(size, now);
    }

    method PutHead(sex: ByteSex, buffer: array<Byte>, at: nat)
      requires at + 6 <= buffer.Length
      modifies buffer
      ensures buffer[..] == Overlay(old(buffer[..]), at, EntryHead(sex, Value()))
    {
      hide Overlay, WordBytes;
      ghost var base, e := buffer[..], Value();
      OverlayNothing(base, at);
      PutNext(sex, buffer, at, dfirstblock, at, base, []);
      PutNext(sex, buffer, at + 2, dlastblock, at, base, WordBytes(sex, e.first));
      PutNext(sex, buffer, at + 4, dfkind + if status then 32768 else 0, at, base,
              WordBytes(sex, e.first) + WordBytes(sex, e.last));
      assert [] + WordBytes(sex, e.first) == WordBytes(sex, e.first);
    }

    // The stored slot; a name longer than it has room for, which only a damaged
    // medium can have given the file, runs on and is partly overwritten.
    method MetaWrite(sex: ByteSex, buffer: array<Byte>, at: nat)
      requires at + ENTRY <= buffer.Length && |name| < 256 && at + 7 + |name| <= buffer.Length
      modifies buffer
      ensures buffer[..] == SlotPut(old(buffer[..]), at, sex, Value())
      ensures |name| <= 15 && (forall i: nat | at <= i < at + ENTRY :: old(buffer[i]) == 0) ==>
        buffer[..] == Overlay(old(buffer[..]), at, EntryBytes(sex, Value()))
    {
      hide Overlay, WordBytes, DateWord, EntryHead;
      ghost var base, e := buffer[..], Value();
      if |name| <= 15 && forall i: nat | at <= i < at + ENTRY :: buffer[i] == 0 {
        SlotIsEntry(base, at, sex, e);
      }
      PutHead(sex, buffer, at);
      OverlayAppend(base, at, EntryHead(sex, e), [|name|] + name);
      Store(buffer, at + 6, [|name|] + name);
      ghost var named := buffer[..];
      OverlayNothing(named, at + 22);
      PutNext(sex, buffer, at + 22, dlastbyte, at + 22, named, []);
      assert [] + WordBytes(sex, dlastbyte) == WordBytes(sex, dlastbyte);
      PutNext(sex, buffer, at + 24, DateWord(when), at + 22, named, WordBytes(sex, dlastbyte));
    }

    // Moves the blocks of the file; tells whether anything changed.
    method Relocate(toBlock: nat) returns (changed: bool)
      requires Sized(Value()) && device.Ready()
      requires dlastblock * 512 <= device.Length() && (toBlock + Blocks(Value())) * 512 <= device.Length()
      modifies this, device.disk.image
      ensures changed <==> toBlock != old(dfirstblock)
      ensures Value() == At(old(Value()), toBlock)
      ensures device.Contents() == Moved(old(device.Contents()), old(Value()), toBlock)
    {
      ghost var V := device.Contents();
      if toBlock == dfirstblock {
        assert Overlay(V, toBlock * 512, V[toBlock * 512..dlastblock * 512]) == V;
        return false;
      }
      var numBlocks := dlastblock - dfirstblock;
      device.RelocateBlocks(toBlock, dfirstblock, numBlocks);
      dfirstblock := toBlock;
      dlastblock := toBlock + numBlocks;
      return true;
    }
  }

  class VolumeLabel {
    const device: Device
    var dfirstblock: nat
    var dlastblock: nat
    var padding4: nat
    var name: seq<Byte>
    var deovblk: nat
    var dnumfiles: nat
    var dloadtime: nat
    var when: Date
    var padding22: nat
    var padding24: nat

    // A fresh volume over the whole device; twin keeps a second directory.
    constructor (d: Device, aName: seq<Byte>, twin: bool, now: Date)
      ensures device == d
      ensures Value() == Label(0, if twin then 10 else 6, 0, aName, d.Length() / 512, 0, 0, now, 0, 0)
    {
      device := d;
      dfirstblock, dlastblock, padding4, name := 0, if twin then 10 else 6, 0, aName;
      deovblk, dnumfiles, dloadtime, when, padding22, padding24 := d.Length() / 512, 0, 0, now, 0, 0;
    }

    constructor FromBytes(d: Device, sex: ByteSex, data: seq<Byte>)
      requires |data| >= ENTRY
      ensures device == d && Value() == ReadLabel(sex, data)
    {
      device := d;
      dfirstblock := Word(sex, data[0], data[1]);
      dlastblock := Word(sex, data[2], data[3]);
      padding4 := Word(sex, data[4], data[5]);
      name := NameAt(data);
      deovblk := Word(sex, data[14], data[15]);
      dnumfiles := Word(sex, data[16], data[17]);
      dloadtime := Word(sex, data[18], data[19]);
      when := WordDate(Word(sex, data[20], data[21]));
      padding22 := Word(sex, data[22], data[23]);
      padding24 := Word(sex, data[24], data[25]);
    }

    function Value(): Label
      reads this
    {
      Label(dfirstblock, dlastblock, padding4, name, deovblk, dnumfiles, dloadtime, when, padding22, padding24)
    }

    method MetaWrite(sex: ByteSex, buffer: array<Byte>, at: nat)
      requires at + ENTRY <= buffer.Length
      requires forall i: nat | at <= i < at + ENTRY :: buffer[i] == 0
      modifies buffer
      ensures buffer[..] == Overlay(old(buffer[..]), at, LabelBytes(sex, Value()))
    {
      hide Overlay, WordBytes, DateWord;
      ghost var base, l := buffer[..], Value();
      OverlayNothing(base, at);
      PutNext(sex, buffer, at, dfirstblock, at, base, []);
      PutNext(sex, buffer, at + 2, dlastblock, at, base, WordBytes(sex, l.first));
      PutNext(sex, buffer, at + 4, padding4, at, base, WordBytes(sex, l.first) + WordBytes(sex, l.last));
      assert [] + WordBytes(sex, l.first) == WordBytes(sex, l.first);
      ghost var head := LabelHead(sex, l);
      var len := if |name| > 7 then 7 else |name|;
      OverlayAppend(base, at, head, [len] + name[..len]);
      Store(buffer, at + 6, [len] + name[..len]);
      assert head + ([len] + name[..len]) == head + [len] + name[..len];
      OverlayZeros(base, at, head + [len] + name[..len], 7 - len);
      ghost var done := head + [len] + Padded(name[..len], 7);
      assert done == head + [len] + name[..len] + Zeros(7 - len);
      TailWrite(sex, buffer, at, base, done);
      assert name[..|name|] == name;
    }

    method TailWrite(sex: ByteSex, buffer: array<Byte>, at: nat, ghost base: seq<Byte>, ghost done: seq<Byte>)
      requires at + ENTRY <= buffer.Length == |base| && |done| == 14
      requires buffer[..] == Overlay(base, at, done)
      modifies buffer
      ensures buffer[..] == Overlay(base, at, done + LabelTail(sex, Value()))
    {
      hide Overlay, WordBytes, DateWord;
      PutNext(sex, buffer, at + 14, deovblk, at, base, done);
      ghost var d1 := done + WordBytes(sex, deovblk);
      PutNext(sex, buffer, at + 16, dnumfiles, at, base, d1);
      ghost var d2 := d1 + WordBytes(sex, dnumfiles);
      PutNext(sex, buffer, at + 18, dloadtime, at, base, d2);
      ghost var d3 := d2 + WordBytes(sex, dloadtime);
      PutNext(sex, buffer, at + 20, DateWord(when), at, base, d3);
      ghost var d4 := d3 + WordBytes(sex, DateWord(when));
      PutNext(sex, buffer, at + 22, padding22, at, base, d4);
      ghost var d5 := d4 + WordBytes(sex, padding22);
      PutNext(sex, buffer, at + 24, padding24, at, base, d5);
      assert d5 + WordBytes(sex, padding24) == done + LabelTail(sex, Value());
    }

    method SetNumFiles(n: nat)
      requires dlastblock >= dfirstblock + 3 && n <= MaxEntries(Value())
      modifies this`dnumfiles
      ensures Value() == old(Value()).(numFiles := n)
    {
      dnumfiles := n;
    }

    method MaximumDirectoryEntries() returns (n: nat)
      requires dlastblock >= dfirstblock + 3
      ensures n == MaxEntries(Value())
    {
      n := (dlastblock - dfirstblock - 2) * 512 / ENTRY - 1;
    }

    method UpdateTimestamp(now: Date)
      modifies this`when
      ensures Value() == old(Value()).(date := now)
    {
      when := now;
    }
  }

  // The fields of an entry put one after the other, the last two at their own place.
  function SlotPut(base: seq<Byte>, at: nat, sex: ByteSex, e: Entry): (r: seq<Byte>)
    requires |e.name| < 256 && at + 7 + |e.name| <= |base| && at + ENTRY <= |base|
    ensures |r| == |base|
  {
    Overlay(Overlay(base, at, EntryHead(sex, e) + ([|e.name|] + e.name)), at + 22, EntryTail(sex, e))
  }

  // Where the slot was clear and the name fits, they are the stored entry.
  lemma SlotIsEntry(base: seq<Byte>, at: nat, sex: ByteSex, e: Entry)
    requires |e.name| <= 15 && at + ENTRY <= |base|
    requires forall i: nat | at <= i < at + ENTRY :: base[i] == 0
    ensures SlotPut(base, at, sex, e) == Overlay(base, at, EntryBytes(sex, e))
  {
    hide Overlay, WordBytes, DateWord, EntryHead, EntryTail;
    var named := EntryHead(sex, e) + ([|e.name|] + e.name);
    OverlayZeros(base, at, named, 15 - |e.name|);
    OverlayAppend(base, at, named + Zeros(15 - |e.name|), EntryTail(sex, e));
    assert EntryBytes(sex, e) == named + Zeros(15 - |e.name|) + EntryTail(sex, e);
  }

  // Overwriting zeros with zeros changes nothing.
  lemma OverlayZeros(s: seq<Byte>, pos: nat, d: seq<Byte>, n: nat)
    requires pos + |d| + n <= |s| && forall i: nat | pos + |d| <= i < pos + |d| + n :: s[i] == 0
    ensures Overlay(s, pos, d) == Overlay(s, pos, d + Zeros(n))
  {
  }

  // ------------------------------------------------------------ directory list

  class EntryList {
    var list: array<FileEntry?>
    var length: nat
    var maximum: nat
    ghost var items: seq<FileEntry>

    ghost predicate Valid()
      reads this, list
    {
      && list.Length == maximum && |items| == length <= maximum
      && forall i: nat | i < length :: list[i] == items[i]
    }

    constructor ()
      ensures Valid() && items == [] && fresh(list)
    {
      list, length, maximum, items := new FileEntry?[0], 0, 0, [];
    }

    method PushBack(dep: FileEntry)
      requires Valid()
      modifies this, list
      ensures Valid() && items == old(items) + [dep]
      ensures list == old(list) || fresh(list)
    {
      if length >= maximum {
        var newMaximum := maximum * 2 + 8;
        var newList := new FileEntry?[newMaximum];
        for j := 0 to length
          invariant forall i: nat | i < j :: newList[i] == items[i]
          modifies newList
        {
          newList[j] := list[j];
        }
        list := newList;
        maximum := newMaximum;
      }
      list[length] := dep;
      length := length + 1;
      items := items + [dep];
    }

    method Nth(n: nat) returns (dep: FileEntry?)
      requires Valid()
      ensures dep == if n < |items| then items[n] else null
    {
      if n >= length {
        return null;
      }
      return list[n];
    }

    method IndexOf(dep: FileEntry) returns (n: int)
      requires Valid()
      ensures n == -1 <==> dep !in items
      ensures n != -1 ==> 0 <= n < |items| && items[n] == dep && dep !in items[..n]
    {
      for j := 0 to length
        invariant dep !in items[..j]
      {
        if list[j] == dep {
          return j;
        }
      }
      return -1;
    }

    // The files after it move up one place, so that they stay in order.
    method Erase(dep: FileEntry) returns (found: bool)
      requires Valid()
      modifies this, list
      ensures Valid() && list == old(list)
      ensures found <==> dep in old(items)
      ensures !found ==> items == old(items)
      ensures found ==> exists j: nat | j < |old(items)| ::
          old(items)[j] == dep && dep !in old(items)[..j] && items == old(items)[..j] + old(items)[j + 1..]
    {
      for j := 0 to length
        invariant Valid() && items == old(items) && length == old(length)
        invariant dep !in items[..j]
        invariant list == old(list)
      {
        if list[j] == dep {
          for k := j + 1 to length
            invariant length == old(length) && maximum == list.Length && list == old(list) && items == old(items)
            invariant forall i: nat | i < j :: list[i] == items[i]
            invariant forall i: nat | j < i < k :: list[i - 1] == items[i]
            invariant forall i: nat | k <= i < length :: list[i] == items[i]
          {
            list[k - 1] := list[k];
          }
          length := length - 1;
          list[length] := null;
          items := items[..j] + items[j + 1..];
          forall i: nat | j <= i < length ensures list[i] == items[i] {
            assert list[(i + 1) - 1] == old(items)[i + 1];
          }
          return true;
        }
      }
      return false;
    }
  }
}
