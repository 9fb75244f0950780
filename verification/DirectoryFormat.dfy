/**
 The directory of a volume as it is stored: a label and up to 77 entries of 26 bytes,
 in either byte order.
 */
module DirectoryFormat {
  import opened Arithmetic
  import opened Bytes

  datatype ByteSex = LittleEndian | BigEndian

  datatype Date = Date(year: nat, month: nat, day: nat) {
    predicate Valid() {
      1970 <= year < 2070 && 1 <= month <= 12 && 1 <= day <= DaysIn(year, month)
    }
  }

  predicate Leap(year: nat) {
    year % 4 == 0 && (year % 100 != 0 || year % 400 == 0)
  }

  function DaysIn(year: nat, month: nat): (n: nat)
    ensures 28 <= n <= 31
  {
    if month == 2 then if Leap(year) then 29 else 28 else if month in {4, 6, 9, 11} then 30 else 31
  }

  datatype Entry = Entry(first: nat, last: nat, kind: nat, status: bool, name: seq<Byte>, lastByte: nat, date: Date)

  datatype Label = Label(first: nat, last: nat, pad4: nat, name: seq<Byte>, eov: nat, numFiles: nat, loadTime: nat,
                         date: Date, pad22: nat, pad24: nat)

  const SLASH: Byte := 47
  const UNDERSCORE: Byte := 95
  const ENTRY := 26
  const BUFFER := 2048

  // ------------------------------------------------------------------ words

  function WordBytes(sex: ByteSex, value: nat): (d: seq<Byte>)
    ensures |d| == 2
  {
    if sex.LittleEndian? then [value % 256, value / 256 % 256] else [value / 256 % 256, value % 256]
  }

  function Word(sex: ByteSex, a: Byte, b: Byte): (w: nat)
    ensures w < 65536
  {
    if sex.LittleEndian? then a + b * 256 else a * 256 + b
  }

  lemma WordRoundTrip(sex: ByteSex, value: nat)
    requires value < 65536
    ensures Word(sex, WordBytes(sex, value)[0], WordBytes(sex, value)[1]) == value
  {
  }

  // Month in the low four bits, then the day in five, then the year of the century.
  function DateWord(date: Date): nat {
    date.month + date.day * 16 + date.year % 100 * 512
  }

  function WordDate(x: nat): Date {
    if x == 0 then Date(1970, 1, 1) else Calendar(YearOf(x), x % 16, x / 16 % 32)
  }

  function YearOf(x: nat): (year: nat)
    ensures 1970 <= year < 2070
  {
    var y := x / 512 % 128;
    if y < 70 then y + 2000 else y + 1900
  }

  // mktime(): months and days out of range run over into those before and after.
  function Calendar(year: nat, month: nat, day: nat): Date
    requires year > 0 && month < 16 && day < 32
  {
    if month == 0 then InMonth(year - 1, 12, day)
    else if month > 12 then InMonth(year + 1, month - 12, day)
    else InMonth(year, month, day)
  }

  function InMonth(year: nat, month: nat, day: nat): Date
    requires 1 <= month <= 12 && day < 32
  {
    if day == 0 then
      if month > 1 then Date(year, month - 1, DaysIn(year, month - 1))
      else Date(if year > 0 then year - 1 else 0, 12, 31)
    else if day > DaysIn(year, month) then Date(year, month + 1, day - DaysIn(year, month))
    else Date(year, month, day)
  }

  // Whatever is stored for a date, a real one of those that can be stored again is read,
  // but for the months before January 1970 and after December 2069.
  lemma DateRead(x: nat)
    ensures var month, day := x % 16, x / 16 % 32;
      var before := YearOf(x) == 1970 && (month == 0 || (month == 1 && day == 0));
      var after := YearOf(x) == 2069 && month > 12 && (month > 13 || day > 0);
      WordDate(x).Valid() <==> x == 0 || (!before && !after)
  {
    hide Leap, YearOf;
  }

  lemma DateRoundTrip(date: Date)
    requires date.Valid()
    ensures DateWord(date) < 65536 && WordDate(DateWord(date)) == date
  {
    hide Leap;
    var y := if date.year < 2000 then date.year - 1900 else date.year - 2000;
    DivMod(if date.year < 2000 then 19 else 20, y, 100);
    DateBits(date.month, date.day, y);
  }

  lemma DateBits(month: nat, day: nat, y: nat)
    requires month < 16 && day < 32 && y < 128
    ensures var x := month + day * 16 + y * 512;
      x < 65536 && x % 16 == month && x / 16 % 32 == day && x / 512 % 128 == y
  {
    DivMod(day  + y * 32, month, 16);
    DivMod(y, day, 32);
    DivMod(y, day * 16 + month, 512);
  }

  // ------------------------------------------------------------------ names

  function Padded(name: seq<Byte>, n: nat): (d: seq<Byte>)
    requires |name| <= n
    ensures |d| == n
  {
    name + Zeros(n - |name|)
  }

  // name.replace("/", "_")
  function Unslashed(name: seq<Byte>): (r: seq<Byte>)
    ensures |r| == |name|
    ensures forall i: nat | i < |name| :: r[i] == if name[i] == SLASH then UNDERSCORE else name[i]
  {
    seq(|name|, i requires 0 <= i < |name| => if name[i] == SLASH then UNDERSCORE else name[i])
  }

  predicate ValidName(name: seq<Byte>, n: nat) {
    1 <= |name| <= n && SLASH !in name
  }

  lemma NothingToUnslash(name: seq<Byte>)
    requires SLASH !in name
    ensures Unslashed(name) == name
  {
  }

  // The name of length d[6] stored at d[7]; a length that runs past the buffer is cut.
  function NameAt(d: seq<Byte>): seq<Byte>
    requires |d| >= ENTRY
  {
    var len: nat := d[6];
    Unslashed(if 7 + len <= |d| then d[7..7 + len] else d[7..])
  }

  // ---------------------------------------------------------------- entries

  predicate ValidEntry(e: Entry) {
    e.first < 65536 && e.last < 65536 && e.kind < 8 && ValidName(e.name, 15) && e.lastByte < 1024 && e.date.Valid()
  }

  predicate ValidLabel(l: Label) {
    && l.first == 0 && 6 <= l.last < 256 && l.eov < 65536 && l.numFiles <= 77
    && SLASH !in l.name && l.date.Valid()
    && l.pad4 < 65536 && l.loadTime < 65536 && l.pad22 < 65536 && l.pad24 < 65536
  }

  function KindWord(e: Entry): nat {
    e.kind + if e.status then 32768 else 0
  }

  function EntryHead(sex: ByteSex, e: Entry): (d: seq<Byte>)
    ensures |d| == 6
  {
    WordBytes(sex, e.first) + WordBytes(sex, e.last) + WordBytes(sex, KindWord(e))
  }

  function EntryTail(sex: ByteSex, e: Entry): (d: seq<Byte>)
    ensures |d| == 4
  {
    WordBytes(sex, e.lastByte) + WordBytes(sex, DateWord(e.date))
  }

  function EntryBytes(sex: ByteSex, e: Entry): (d: seq<Byte>)
    requires |e.name| <= 15
    ensures |d| == ENTRY
  {
    EntryHead(sex, e) + [|e.name|] + Padded(e.name, 15) + EntryTail(sex, e)
  }

  function LabelHead(sex: ByteSex, l: Label): (d: seq<Byte>)
    ensures |d| == 6
  {
    WordBytes(sex, l.first) + WordBytes(sex, l.last) + WordBytes(sex, l.pad4)
  }

  function LabelTail(sex: ByteSex, l: Label): (d: seq<Byte>)
    ensures |d| == 12
  {
    WordBytes(sex, l.eov) + WordBytes(sex, l.numFiles) + WordBytes(sex, l.loadTime)
      + WordBytes(sex, DateWord(l.date)) + WordBytes(sex, l.pad22) + WordBytes(sex, l.pad24)
  }

  // At most seven bytes of the name are stored.
  function AsStored(l: Label): Label {
    l.(name := if |l.name| > 7 then l.name[..7] else l.name)
  }

  function LabelBytes(sex: ByteSex, l: Label): (d: seq<Byte>)
    ensures |d| == ENTRY
  {
    var name := AsStored(l).name;
    LabelHead(sex, l) + [|name|] + Padded(name, 7) + LabelTail(sex, l)
  }

  function ReadEntry(sex: ByteSex, d: seq<Byte>): Entry
    requires |d| >= ENTRY
  {
    var word := Word(sex, d[4], d[5]);
    Entry(Word(sex, d[0], d[1]), Word(sex, d[2], d[3]), word % 8, word / 32768 % 2 == 1, NameAt(d),
          Word(sex, d[22], d[23]) % 1024, WordDate(Word(sex, d[24], d[25])))
  }

  function ReadLabel(sex: ByteSex, d: seq<Byte>): Label
    requires |d| >= ENTRY
  {
    Label(Word(sex, d[0], d[1]), Word(sex, d[2], d[3]), Word(sex, d[4], d[5]), NameAt(d), Word(sex, d[14], d[15]),
          Word(sex, d[16], d[17]), Word(sex, d[18], d[19]), WordDate(Word(sex, d[20], d[21])),
          Word(sex, d[22], d[23]), Word(sex, d[24], d[25]))
  }

  lemma NameRoundTrip(d: seq<Byte>, name: seq<Byte>, n: nat)
    requires |d| >= ENTRY && |name| <= n <= 15 && SLASH !in name
    requires d[6] == |name| && d[7..7 + n] == Padded(name, n)
    ensures NameAt(d) == name
  {
    var len: nat := d[6];
    assert d[7..7 + len] == d[7..7 + n][..len] == name;
    NothingToUnslash(name);
  }

  lemma EntryParts(sex: ByteSex, e: Entry, rest: seq<Byte>)
    requires |e.name| <= 15
    ensures var d := EntryBytes(sex, e) + rest;
      && d[..6] == EntryHead(sex, e) && d[6] == |e.name| && d[7..22] == Padded(e.name, 15)
      && d[22..26] == EntryTail(sex, e)
  {
  }

  lemma HeadWords(sex: ByteSex, d: seq<Byte>, x: nat, y: nat, z: nat)
    requires |d| >= 6 && d[..6] == WordBytes(sex, x) + WordBytes(sex, y) + WordBytes(sex, z)
    requires x < 65536 && y < 65536 && z < 65536
    ensures Word(sex, d[0], d[1]) == x && Word(sex, d[2], d[3]) == y && Word(sex, d[4], d[5]) == z
  {
    hide WordBytes, Word;
    var h := d[..6];
    WordRoundTrip(sex, x);
    WordRoundTrip(sex, y);
    WordRoundTrip(sex, z);
  }

  lemma TailWords(sex: ByteSex, d: seq<Byte>, at: nat, x: nat, y: nat)
    requires at + 4 <= |d| && d[at..at + 4] == WordBytes(sex, x) + WordBytes(sex, y)
    requires x < 65536 && y < 65536
    ensures Word(sex, d[at], d[at + 1]) == x && Word(sex, d[at + 2], d[at + 3]) == y
  {
    hide WordBytes, Word;
    var t := d[at..at + 4];
    assert t[0] == d[at] && t[1] == d[at + 1] && t[2] == d[at + 2] && t[3] == d[at + 3];
    WordRoundTrip(sex, x);
    WordRoundTrip(sex, y);
  }

  // What is read from a stored entry is that entry, whatever follows it.
  lemma EntryRoundTrip(sex: ByteSex, e: Entry, rest: seq<Byte>)
    requires ValidEntry(e)
    ensures ReadEntry(sex, EntryBytes(sex, e) + rest) == e
  {
    hide EntryBytes, Word, WordBytes, WordDate, DateWord, NameAt;
    var d := EntryBytes(sex, e) + rest;
    EntryParts(sex, e, rest);
    HeadWords(sex, d, e.first, e.last, KindWord(e));
    DateRoundTrip(e.date);
    TailWords(sex, d, 22, e.lastByte, DateWord(e.date));
    NameRoundTrip(d, e.name, 15);
  }

  lemma LabelParts(sex: ByteSex, l: Label, rest: seq<Byte>)
    ensures var d, name := LabelBytes(sex, l) + rest, AsStored(l).name;
      && d[..6] == LabelHead(sex, l) && d[6] == |name| && d[7..14] == Padded(name, 7)
      && d[14..26] == LabelTail(sex, l)
  {
  }

  lemma LabelTailParts(sex: ByteSex, d: seq<Byte>, l: Label)
    requires |d| >= 26 && d[14..26] == LabelTail(sex, l)
    ensures d[14..18] == WordBytes(sex, l.eov) + WordBytes(sex, l.numFiles)
    ensures d[18..22] == WordBytes(sex, l.loadTime) + WordBytes(sex, DateWord(l.date))
    ensures d[22..26] == WordBytes(sex, l.pad22) + WordBytes(sex, l.pad24)
  {
    hide WordBytes, DateWord;
    var t := LabelTail(sex, l);
    SliceSlice(d, 14, 12, 0, 4);
    SliceSlice(d, 14, 12, 4, 4);
    SliceSlice(d, 14, 12, 8, 4);
    assert t[0..4] == WordBytes(sex, l.eov) + WordBytes(sex, l.numFiles);
    assert t[4..8] == WordBytes(sex, l.loadTime) + WordBytes(sex, DateWord(l.date));
    assert t[8..12] == WordBytes(sex, l.pad22) + WordBytes(sex, l.pad24);
  }

  lemma LabelRoundTrip(sex: ByteSex, l: Label, rest: seq<Byte>)
    requires ValidLabel(l)
    ensures ReadLabel(sex, LabelBytes(sex, l) + rest) == AsStored(l)
  {
    hide LabelBytes, LabelTail, Word, WordBytes, WordDate, DateWord, NameAt;
    var d := LabelBytes(sex, l) + rest;
    LabelParts(sex, l, rest);
    LabelTailParts(sex, d, l);
    HeadWords(sex, d, l.first, l.last, l.pad4);
    DateRoundTrip(l.date);
    TailWords(sex, d, 14, l.eov, l.numFiles);
    TailWords(sex, d, 18, l.loadTime, DateWord(l.date));
    TailWords(sex, d, 22, l.pad22, l.pad24);
    NameRoundTrip(d, AsStored(l).name, 7);
  }

  // -------------------------------------------------------------- directory

  predicate ValidEntries(entries: seq<Entry>) {
    |entries| <= 77 && forall i: nat | i < |entries| :: ValidEntry(entries[i])
  }

  function EntriesBytes(sex: ByteSex, entries: seq<Entry>): (d: seq<Byte>)
    requires forall i: nat | i < |entries| :: ValidEntry(entries[i])
    ensures |d| == ENTRY * |entries|
  {
    if entries == [] then []
    else
      assert ValidEntry(entries[0]);
      EntryBytes(sex, entries[0]) + EntriesBytes(sex, entries[1..])
  }

  // The 2048 bytes meta_sync() builds.
  function Directory(sex: ByteSex, header: Label, entries: seq<Entry>): (d: seq<Byte>)
    requires ValidEntries(entries)
    ensures |d| == BUFFER
  {
    LabelBytes(sex, header) + (EntriesBytes(sex, entries) + Zeros(BUFFER - ENTRY - ENTRY * |entries|))
  }

  datatype Parsed = Parsed(sex: ByteSex, header: Label, entries: seq<Entry>) | Broken

  // n entries from d on; a slot without a name ends it all.
  function ReadEntries(sex: ByteSex, d: seq<Byte>, n: nat): (r: Parsed)
    decreases n
  {
    if n == 0 then Parsed(sex, NO_LABEL, [])
    else if |d| < ENTRY || d[6] == 0 then Broken
    else
      var rest := ReadEntries(sex, d[ENTRY..], n - 1);
      if rest.Broken? then Broken else rest.(entries := [ReadEntry(sex, d)] + rest.entries)
  }

  const NO_LABEL := Label(0, 0, 0, [], 0, 0, 0, Date(1970, 1, 1), 0, 0)

  // The byte order is told from the label's last block, taken to be below 256.
  function SexOf(d: seq<Byte>): ByteSex
    requires |d| >= ENTRY
  {
    if d[2] != 0 then LittleEndian else BigEndian
  }

  // What meta_read() makes of a buffer. There must be a block for the directory.
  function ReadDirectory(d: seq<Byte>): Parsed
    requires |d| == BUFFER
  {
    var sex := SexOf(d);
    var header := ReadLabel(sex, d);
    var rest := ReadEntries(sex, d[ENTRY..], header.numFiles);
    if header.last < header.first + 3 || rest.Broken? then Broken else rest.(header := header)
  }

  lemma EntriesSplit(sex: ByteSex, entries: seq<Entry>, rest: seq<Byte>)
    requires entries != [] && forall i: nat | i < |entries| :: ValidEntry(entries[i])
    ensures ValidEntry(entries[0]) && 1 <= |entries[0].name| <= 15
    ensures var d, more := EntriesBytes(sex, entries) + rest, EntriesBytes(sex, entries[1..]) + rest;
      d == EntryBytes(sex, entries[0]) + more && d[ENTRY..] == more
  {
    hide EntryBytes, EntriesBytes;
    assert ValidEntry(entries[0]);
    EntriesFirst(sex, entries);
    ConcatDrop(EntryBytes(sex, entries[0]), EntriesBytes(sex, entries[1..]), rest);
  }

  lemma EntriesFirst(sex: ByteSex, entries: seq<Entry>)
    requires entries != [] && forall i: nat | i < |entries| :: ValidEntry(entries[i])
    ensures ValidEntry(entries[0])
    ensures EntriesBytes(sex, entries) == EntryBytes(sex, entries[0]) + EntriesBytes(sex, entries[1..])
  {
    hide EntryBytes, ValidEntry;
  }

  lemma {:induction false} EntriesRoundTrip(sex: ByteSex, entries: seq<Entry>, rest: seq<Byte>)
    requires forall i: nat | i < |entries| :: ValidEntry(entries[i])
    ensures ReadEntries(sex, EntriesBytes(sex, entries) + rest, |entries|) == Parsed(sex, NO_LABEL, entries)
  {
    hide EntryBytes, ReadEntry, EntriesBytes, ValidEntry;
    if entries != [] {
      var e, more := entries[0], EntriesBytes(sex, entries[1..]) + rest;
      EntriesSplit(sex, entries, rest);
      EntryParts(sex, e, more);
      EntryRoundTrip(sex, e, more);
      EntriesRoundTrip(sex, entries[1..], rest);
    }
  }

  // Reading back a stored directory recovers the byte order, the label and every
  // entry, in order.
  lemma DirectoryRoundTrip(sex: ByteSex, header: Label, entries: seq<Entry>)
    requires ValidLabel(header) && ValidEntries(entries) && header.numFiles == |entries|
    ensures ReadDirectory(Directory(sex, header, entries)) == Parsed(sex, AsStored(header), entries)
  {
    hide LabelBytes, ReadLabel, EntriesBytes, ReadEntries;
    var more := EntriesBytes(sex, entries) + Zeros(BUFFER - ENTRY - ENTRY * |entries|);
    var d := LabelBytes(sex, header) + more;
    assert d[ENTRY..] == more;
    LabelRoundTrip(sex, header, more);
    EntriesRoundTrip(sex, entries, Zeros(BUFFER - ENTRY - ENTRY * |entries|));
    LabelSex(sex, header, more);
  }

  lemma LabelSex(sex: ByteSex, header: Label, rest: seq<Byte>)
    requires ValidLabel(header)
    ensures SexOf(LabelBytes(sex, header) + rest) == sex
  {
  }

  // ------------------------------------------------------------------ places

  function TwoBytes(low: int, high: int): int {
    low + 256 * high
  }

  // A word is stored with its low byte first, or with its high byte first.
  lemma WordPlaces(sex: ByteSex, value: nat)
    requires value < 65536
    ensures var d := WordBytes(sex, value);
      value == if sex == LittleEndian then TwoBytes(d[0], d[1]) else TwoBytes(d[1], d[0])
  {
  }

  // The month, the day and the year of the century.
  lemma DatePlaces(date: Date)
    requires date.Valid()
    ensures var x, year := DateWord(date), date.year - if date.year < 2000 then 1900 else 2000;
      x == date.month + 16 * date.day + 512 * year && year < 100 && x < 65536
  {
    hide Leap;
    DivMod(if date.year < 2000 then 19 else 20, date.year - if date.year < 2000 then 1900 else 2000, 100);
  }

  // Where the fields of an entry are stored: its blocks, its kind and status, its name
  // after its length, its last byte and its date.
  lemma EntryPlaces(sex: ByteSex, e: Entry)
    requires ValidEntry(e)
    ensures var d, little := EntryBytes(sex, e), sex == LittleEndian;
      var year := e.date.year - if e.date.year < 2000 then 1900 else 2000;
      && e.first == (if little then TwoBytes(d[0], d[1]) else TwoBytes(d[1], d[0]))
      && e.last == (if little then TwoBytes(d[2], d[3]) else TwoBytes(d[3], d[2]))
      && e.kind + (if e.status then 32768 else 0) == (if little then TwoBytes(d[4], d[5]) else TwoBytes(d[5], d[4]))
      && d[6] == |e.name| && d[7..7 + |e.name|] == e.name && (forall k: nat | 7 + |e.name| <= k < 22 :: d[k] == 0)
      && e.lastByte == (if little then TwoBytes(d[22], d[23]) else TwoBytes(d[23], d[22]))
      && e.date.month + 16 * e.date.day + 512 * year
           == (if little then TwoBytes(d[24], d[25]) else TwoBytes(d[25], d[24]))
  {
    hide WordBytes, DateWord;
    WordPlaces(sex, e.first);
    WordPlaces(sex, e.last);
    WordPlaces(sex, KindWord(e));
    WordPlaces(sex, e.lastByte);
    DatePlaces(e.date);
    WordPlaces(sex, DateWord(e.date));
    var d := EntryBytes(sex, e);
    assert d[..6] == EntryHead(sex, e) && d[22..26] == EntryTail(sex, e);
    assert d[7..22] == Padded(e.name, 15);
  }

  // And those of a label, of whose name seven bytes are stored.
  lemma LabelPlaces(sex: ByteSex, l: Label)
    requires ValidLabel(l)
    ensures var d, little := LabelBytes(sex, l), sex == LittleEndian;
      var year := l.date.year - if l.date.year < 2000 then 1900 else 2000;
      && l.first == (if little then TwoBytes(d[0], d[1]) else TwoBytes(d[1], d[0]))
      && l.last == (if little then TwoBytes(d[2], d[3]) else TwoBytes(d[3], d[2]))
      && l.eov == (if little then TwoBytes(d[14], d[15]) else TwoBytes(d[15], d[14]))
      && l.numFiles == (if little then TwoBytes(d[16], d[17]) else TwoBytes(d[17], d[16]))
      && l.date.month + 16 * l.date.day + 512 * year
           == (if little then TwoBytes(d[20], d[21]) else TwoBytes(d[21], d[20]))
    ensures var d, n := LabelBytes(sex, l), if |l.name| > 7 then 7 else |l.name|;
      d[6] == n && d[7..7 + n] == l.name[..n] && (forall k: nat | 7 + n <= k < 14 :: d[k] == 0)
  {
    hide WordBytes, DateWord, LabelBytes, LabelTail;
    var d := LabelBytes(sex, l);
    assert d + [] == d;
    LabelParts(sex, l, []);
    LabelTailParts(sex, d, l);
    WordPlaces(sex, l.first);
    WordPlaces(sex, l.last);
    WordPlaces(sex, l.eov);
    WordPlaces(sex, l.numFiles);
    DatePlaces(l.date);
    WordPlaces(sex, DateWord(l.date));
    var name := AsStored(l).name;
    assert d[..6][0..2] == WordBytes(sex, l.first) && d[..6][2..4] == WordBytes(sex, l.last);
    assert d[14..18][0..2] == WordBytes(sex, l.eov) && d[14..18][2..4] == WordBytes(sex, l.numFiles);
    assert d[18..22][2..4] == WordBytes(sex, DateWord(l.date));
    SliceSlice(d, 7, 7, 0, |name|);
    assert Padded(name, 7)[0..|name|] == name;
    assert l.name[..|l.name|] == l.name;
    forall k: nat | 7 + |name| <= k < 14 ensures d[k] == 0 {
      assert d[k] == d[7..14][k - 7];
    }
  }

  // The label comes first, the entries in order behind it, and zeros last.
  lemma {:induction false} DirectoryPlaces(sex: ByteSex, header: Label, entries: seq<Entry>, i: nat)
    requires ValidEntries(entries) && i < |entries|
    ensures ValidEntry(entries[i]) && ENTRY * (i + 2) <= BUFFER
    ensures var d := Directory(sex, header, entries);
      && d[..26] == LabelBytes(sex, header)
      && d[26 * (i + 1)..26 * (i + 2)] == EntryBytes(sex, entries[i])
      && forall k: nat | 26 * (|entries| + 1) <= k < BUFFER :: d[k] == 0
  {
    hide LabelBytes, EntryBytes, EntriesBytes, ValidEntry;
    var d, e := Directory(sex, header, entries), EntriesBytes(sex, entries);
    EntryPlace(sex, entries, i);
    assert d[26 * (i + 1)..26 * (i + 2)] == e[26 * i..26 * (i + 1)];
  }

  lemma {:induction false} EntryPlace(sex: ByteSex, entries: seq<Entry>, i: nat)
    requires i < |entries| && forall k: nat | k < |entries| :: ValidEntry(entries[k])
    ensures ValidEntry(entries[i]) && EntriesBytes(sex, entries)[26 * i..26 * (i + 1)] == EntryBytes(sex, entries[i])
    decreases i
  {
    hide EntryBytes, EntriesBytes;
    assert ValidEntry(entries[0]);
    EntriesFirst(sex, entries);
    var d, more := EntriesBytes(sex, entries), EntriesBytes(sex, entries[1..]);
    if i > 0 {
      EntryPlace(sex, entries[1..], i - 1);
      assert d[26 * i..26 * (i + 1)] == more[26 * (i - 1)..26 * i];
    }
  }

  // Of the kind word and the last byte of any slot only these bits are read.
  lemma BitsRead(sex: ByteSex, d: seq<Byte>)
    requires |d| >= ENTRY
    ensures var e, little := ReadEntry(sex, d), sex == LittleEndian;
      var kind := if little then TwoBytes(d[4], d[5]) else TwoBytes(d[5], d[4]);
      var last := if little then TwoBytes(d[22], d[23]) else TwoBytes(d[23], d[22]);
      && e.kind < 8 && (kind - e.kind) % 8 == 0 && (e.status <==> kind >= 32768)
      && e.lastByte < 1024 && (last - e.lastByte) % 1024 == 0
  {
    hide NameAt, WordDate, Word;
    WordIs(sex, d[4], d[5]);
    WordIs(sex, d[22], d[23]);
    WordBits(Word(sex, d[4], d[5]));
    WordBits(Word(sex, d[22], d[23]));
  }

  lemma WordIs(sex: ByteSex, a: Byte, b: Byte)
    ensures Word(sex, a, b) == if sex == LittleEndian then TwoBytes(a, b) else TwoBytes(b, a)
  {
  }

  lemma WordBits(x: nat)
    requires x < 65536
    ensures x % 8 < 8 && (x - x % 8) % 8 == 0 && x % 1024 < 1024 && (x - x % 1024) % 1024 == 0
    ensures x / 32768 % 2 == 1 <==> x >= 32768
  {
    DivMod(x / 8, 0, 8);
    DivMod(x / 1024, 0, 1024);
  }

  // A name is as long as the byte before it says, and slashes are read as underscores.
  lemma NameRead(sex: ByteSex, d: seq<Byte>)
    requires |d| >= ENTRY && 7 + d[6] <= |d|
    ensures var name := ReadEntry(sex, d).name;
      |name| == d[6] && forall k: nat | k < |name| :: name[k] == if d[7 + k] == 47 then 95 else d[7 + k]
    ensures ReadLabel(sex, d).name == ReadEntry(sex, d).name
  {
    hide WordDate, Word;
  }

  // ------------------------------------------------------------------ space

  // calc_max_dir_ents()
  function MaxEntries(header: Label): nat
    requires header.last >= header.first + 3
  {
    (header.last - header.first - 2) * 512 / ENTRY - 1
  }

  // The label allows as many files as its blocks have room for besides itself, the first
  // two aside.
  lemma MaxEntriesFit(header: Label)
    requires header.last >= header.first + 3
    ensures 26 * (MaxEntries(header) + 1) <= 512 * (header.last - header.first - 2) < 26 * (MaxEntries(header) + 2)
  {
  }

  // Every directory the label allows fits in the buffer meta_sync() builds exactly
  // when the label is the small one.
  lemma BufferHoldsAll(header: Label)
    requires ValidLabel(header)
    ensures (forall n: nat | n <= MaxEntries(header) :: StoredSize(n) < BUFFER) <==> header.last == 6
  {
    if header.last > 6 {
      assert StoredSize(78) > BUFFER - ENTRY;
      assert 78 <= MaxEntries(header);
    }
  }

  // A larger label allows entries past the 77 that fit.
  lemma BufferOverflows(header: Label)
    requires ValidLabel(header) && header.last > 6
    ensures 78 <= MaxEntries(header) && StoredSize(78) > BUFFER
    ensures forall n: nat :: StoredSize(n) < BUFFER <==> n <= 77
  {
  }

  // The label and n entries.
  function StoredSize(n: nat): nat {
    ENTRY + ENTRY * n
  }
}
