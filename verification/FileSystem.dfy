/**
 Runs of operations on a volume, against the plain list of files they stand for.
 */
module FileSystem {
  import opened Bytes
  import opened DirectoryFormat
  import opened Extents
  import opened Devices
  import opened DirectoryEntries
  import opened VolumeState
  import opened Volumes

  // Files are named by their place in the directory.
  datatype Op =
    | MkNod(name: seq<Byte>, kind: nat, now: Date)
    | Write(i: nat, offset: int, data: seq<Byte>, now: Date)
    | Truncate(i: nat, size: int, now: Date)
    | Unlink(i: nat, now: Date)
    | Crunch
    | Wipe

  // The size of a volume: its blocks for files, and the entries its label allows.
  datatype Limits = Limits(blocks: nat, entries: nat)

  // What an operation does to a list of files that only shares blocks.
  function Apply(fs: seq<File>, limits: Limits, op: Op): (Reply, seq<File>)
    requires Names(fs, op)
  {
    match op
    case MkNod(name, kind, now) => MkNodFile(fs, limits.entries, name, kind, now)
    case Write(i, offset, data, now) => WriteFile(fs, limits.blocks, i, offset, data, now)
    case Truncate(i, size, now) => TruncateFile(fs, limits.blocks, i, size, now)
    case Unlink(i, _) => (Done(0), Without(fs, i))
    case Crunch => (Done(0), fs)
    case Wipe => (Done(0), fs)
  }

  // The operation names a file that is there.
  predicate Names(fs: seq<File>, op: Op) {
    match op
    case Write(i, _, _, _) => i < |fs|
    case Truncate(i, _, _) => i < |fs|
    case Unlink(i, _) => i < |fs|
    case _ => true
  }

  // What a caller has to see to: a proper name, no more files than the stored
  // directory has room for, and a date it can hold.
  predicate Allowed(fs: seq<File>, limits: Limits, op: Op) {
    && Names(fs, op)
    && (!op.Crunch? && !op.Wipe? ==> op.now.Valid())
    && (op.MkNod? ==> |op.name| > 0 && SLASH !in op.name && op.kind < 8 && (limits.entries > 77 ==> |fs| < 77))
  }

  // A write into the hole behind a file.
  predicate IntoHole(fs: seq<File>, op: Op) {
    op.Write? && op.i < |fs| && InHole(fs[op.i].bytes, op.offset, op.data)
  }

  // One that reaches the end of the file's last block.
  predicate FillsBlock(fs: seq<File>, op: Op) {
    IntoHole(fs, op) && op.offset + |op.data| == 512 * BlocksFor(|fs[op.i].bytes|)
  }

  // What such a write makes of bytes b depends on what else is in the block: only
  // the bytes of the file, and the data, one place late at an odd offset, are sure.
  predicate HoleResult(b: seq<Byte>, offset: nat, data: seq<Byte>, after: seq<Byte>) {
    && |after| == offset + |data|
    && b <= after
    && forall k: nat | offset + offset % 2 <= k < |after| :: after[k] == data[k - offset - offset % 2]
  }

  // What an operation may come to: what it does to a plain list, or, for a write into
  // the hole, a refusal at an odd offset, the end of the program if the write reaches
  // the end of the block, and a file so filled if it does not.
  ghost predicate Outcome(fs: seq<File>, limits: Limits, op: Op, reply: Reply, after: seq<File>) {
    && Names(fs, op)
    && if !IntoHole(fs, op) then (reply, after) == Apply(fs, limits, op)
       else
         || (op.offset % 2 == 1 && reply == Failed(ENOSPC) && after == fs)
         || (FillsBlock(fs, op) && reply == Crashed && after == fs)
         || (!FillsBlock(fs, op) && reply == Done(|op.data|) && exists bytes: seq<Byte> ::
               HoleResult(fs[op.i].bytes, op.offset, op.data, bytes) && after == WithBytes(fs, op.i, bytes, op.now))
  }

  // The same of an operation after which the program goes on.
  ghost predicate Passes(fs: seq<File>, limits: Limits, op: Op, reply: Reply, after: seq<File>) {
    reply != Crashed && Outcome(fs, limits, op, reply, after)
  }

  // A run in which every operation is allowed, whatever those before it came to.
  ghost predicate Safe(fs: seq<File>, limits: Limits, ops: seq<Op>)
    decreases |ops|
  {
    ops != [] ==>
      && Allowed(fs, limits, ops[0])
      && forall reply, after :: Passes(fs, limits, ops[0], reply, after) ==> Safe(after, limits, ops[1..])
  }

  // The run may come to these replies and files.
  ghost predicate Reaches(fs: seq<File>, limits: Limits, ops: seq<Op>, replies: seq<Reply>, after: seq<File>)
    decreases |ops|
  {
    && |replies| == |ops|
    && if ops == [] then after == fs
       else exists mid :: Passes(fs, limits, ops[0], replies[0], mid)
                       && Reaches(mid, limits, ops[1..], replies[1..], after)
  }

  lemma {:induction false} ReachesNext(fs: seq<File>, limits: Limits, ops: seq<Op>, replies: seq<Reply>, mid: seq<File>,
                                       op: Op, reply: Reply, after: seq<File>)
    requires Reaches(fs, limits, ops, replies, mid) && Passes(mid, limits, op, reply, after)
    ensures Reaches(fs, limits, ops + [op], replies + [reply], after)
    decreases |ops|
  {
    hide Passes;
    if ops == [] {
      assert (ops + [op])[0] == op && (replies + [reply])[0] == reply;
      assert (ops + [op])[1..] == [] && (replies + [reply])[1..] == [];
      assert Passes(fs, limits, op, reply, after) && Reaches(after, limits, [], [], after);
    } else {
      var m :| Passes(fs, limits, ops[0], replies[0], m) && Reaches(m, limits, ops[1..], replies[1..], mid);
      ReachesNext(m, limits, ops[1..], replies[1..], mid, op, reply, after);
      assert (ops + [op])[0] == ops[0] && (ops + [op])[1..] == ops[1..] + [op];
      assert (replies + [reply])[0] == replies[0] && (replies + [reply])[1..] == replies[1..] + [reply];
    }
  }

  // A run without writes into a hole.
  predicate Plain(fs: seq<File>, limits: Limits, ops: seq<Op>)
    decreases |ops|
  {
    ops != [] ==>
      Names(fs, ops[0]) && !IntoHole(fs, ops[0]) && Plain(Apply(fs, limits, ops[0]).1, limits, ops[1..])
  }

  function Run(fs: seq<File>, limits: Limits, ops: seq<Op>): (seq<Reply>, seq<File>)
    requires Plain(fs, limits, ops)
    decreases |ops|
  {
    if ops == [] then ([], fs)
    else
      var (reply, mid) := Apply(fs, limits, ops[0]);
      var (replies, after) := Run(mid, limits, ops[1..]);
      ([reply] + replies, after)
  }

  // It comes to what the same operations make of a plain list, and to nothing else.
  lemma {:induction false} PlainRuns(fs: seq<File>, limits: Limits, ops: seq<Op>, replies: seq<Reply>, after: seq<File>)
    requires Plain(fs, limits, ops)
    ensures Reaches(fs, limits, ops, replies, after) <==> (replies, after) == Run(fs, limits, ops)
    decreases |ops|
  {
    hide Apply, IntoHole, Passes;
    RunLength(fs, limits, ops);
    if ops != [] && |replies| == |ops| {
      var (reply, mid) := Apply(fs, limits, ops[0]);
      PlainRuns(mid, limits, ops[1..], replies[1..], after);
      forall m ensures Passes(fs, limits, ops[0], replies[0], m) <==> (replies[0], m) == (reply, mid) {
        PlainPasses(fs, limits, ops[0], replies[0], m);
      }
      assert replies == [replies[0]] + replies[1..];
    }
  }

  lemma {:induction false} RunLength(fs: seq<File>, limits: Limits, ops: seq<Op>)
    requires Plain(fs, limits, ops)
    ensures |Run(fs, limits, ops).0| == |ops|
    decreases |ops|
  {
    hide Apply, IntoHole;
    if ops != [] {
      RunLength(Apply(fs, limits, ops[0]).1, limits, ops[1..]);
    }
  }

  lemma PlainPasses(fs: seq<File>, limits: Limits, op: Op, reply: Reply, after: seq<File>)
    requires Names(fs, op) && !IntoHole(fs, op)
    ensures Passes(fs, limits, op, reply, after) <==> (reply, after) == Apply(fs, limits, op)
  {
    hide IntoHole;
  }

  // -------------------------------------------------------------- isolation

  // Whether the operation is on file k, and where file k is afterwards.
  predicate Touches(op: Op, k: nat) {
    match op
    case Write(i, _, _, _) => i == k
    case Truncate(i, _, _) => i == k
    case Unlink(i, _) => i == k
    case _ => false
  }

  function Follow(op: Op, k: nat): nat {
    if op.Unlink? && op.i < k then k - 1 else k
  }

  lemma OthersUntouched(fs: seq<File>, limits: Limits, op: Op, k: nat, reply: Reply, after: seq<File>)
    requires Outcome(fs, limits, op, reply, after) && k < |fs| && !Touches(op, k)
    ensures Follow(op, k) < |after| && after[Follow(op, k)] == fs[k]
  {
  }

  predicate Untouched(ops: seq<Op>, k: nat)
    decreases |ops|
  {
    ops != [] ==> !Touches(ops[0], k) && Untouched(ops[1..], Follow(ops[0], k))
  }

  function FollowAll(ops: seq<Op>, k: nat): nat
    decreases |ops|
  {
    if ops == [] then k else FollowAll(ops[1..], Follow(ops[0], k))
  }

  // Over a whole run, a file no operation is on keeps its name, date and bytes.
  lemma {:induction false} RunIsolation(fs: seq<File>, limits: Limits, ops: seq<Op>, replies: seq<Reply>,
                                        after: seq<File>, k: nat)
    requires Reaches(fs, limits, ops, replies, after) && k < |fs| && Untouched(ops, k)
    ensures FollowAll(ops, k) < |after| && after[FollowAll(ops, k)] == fs[k]
    decreases |ops|
  {
    hide Outcome, Touches, Follow;
    if ops != [] {
      var mid :| Passes(fs, limits, ops[0], replies[0], mid) && Reaches(mid, limits, ops[1..], replies[1..], after);
      OthersUntouched(fs, limits, ops[0], k, replies[0], mid);
      RunIsolation(mid, limits, ops[1..], replies[1..], after, Follow(ops[0], k));
    }
  }

  // What was written is what is read.
  lemma WriteThenRead(fs: seq<File>, limits: Limits, i: nat, offset: nat, data: seq<Byte>, now: Date)
    requires i < |fs| && data != []
    ensures var (reply, after) := Apply(fs, limits, Write(i, offset, data, now));
      reply == Done(|data|) ==> ReadFile(after, i, offset, |data|) == data
  {
  }

  // ------------------------------------------------------------------ space

  lemma {:induction false} UsedAppend(fs: seq<File>, gs: seq<File>)
    ensures Used(fs + gs) == Used(fs) + Used(gs)
    decreases |gs|
  {
    if gs == [] {
      assert fs + gs == fs;
    } else {
      assert (fs + gs)[..|fs + gs| - 1] == fs + gs[..|gs| - 1];
      UsedAppend(fs, gs[..|gs| - 1]);
    }
  }

  lemma UsedSplit(fs: seq<File>, i: nat)
    requires i < |fs|
    ensures Used(fs) == Used(fs[..i]) + BlocksFor(|fs[i].bytes|) + Used(fs[i + 1..])
  {
    hide Used, BlocksFor;
    assert fs == fs[..i] + ([fs[i]] + fs[i + 1..]);
    UsedAppend(fs[..i], [fs[i]] + fs[i + 1..]);
    UsedAppend([fs[i]], fs[i + 1..]);
    UsedOne(fs[i]);
  }

  lemma UsedOne(f: File)
    ensures Used([f]) == BlocksFor(|f.bytes|)
  {
    assert [f][..0] == [];
  }

  lemma {:induction false} UsedWithBytes(fs: seq<File>, i: nat, bytes: seq<Byte>, now: Date)
    requires i < |fs|
    ensures Used(WithBytes(fs, i, bytes, now)) == Used(fs) - BlocksFor(|fs[i].bytes|) + BlocksFor(|bytes|)
  {
    hide Used, BlocksFor;
    var gs := WithBytes(fs, i, bytes, now);
    UsedSplit(fs, i);
    UsedSplit(gs, i);
    assert gs[..i] == fs[..i] && gs[i + 1..] == fs[i + 1..];
  }

  lemma ApplyKeepsSpace(fs: seq<File>, limits: Limits, op: Op)
    requires Names(fs, op) && Used(fs) <= limits.blocks
    ensures Used(Apply(fs, limits, op).1) <= limits.blocks
  {
    hide Used, Overlaid, Cut, WithBytes;
    match op
    case MkNod(name, kind, now) =>
      var f := File(Shortened(name), kind, false, now, []);
      UsedAppend(fs, [f]);
      UsedOne(f);
    case Write(i, offset, data, now) =>
      if offset >= 0 {
        UsedWithBytes(fs, i, Overlaid(fs[i].bytes, offset, data), now);
      }
    case Truncate(i, size, now) =>
      if size >= 0 {
        UsedWithBytes(fs, i, Cut(fs[i].bytes, size), now);
      }
    case Unlink(i, _) =>
      UsedSplit(fs, i);
      UsedAppend(fs[..i], fs[i + 1..]);
    case _ =>
  }

  lemma HoleKeepsSpace(fs: seq<File>, op: Op, bytes: seq<Byte>)
    requires IntoHole(fs, op) && HoleResult(fs[op.i].bytes, op.offset, op.data, bytes)
    ensures Used(WithBytes(fs, op.i, bytes, op.now)) <= Used(fs)
  {
    UsedWithBytes(fs, op.i, bytes, op.now);
  }

  lemma OutcomeKeepsSpace(fs: seq<File>, limits: Limits, op: Op, reply: Reply, after: seq<File>)
    requires Outcome(fs, limits, op, reply, after) && Used(fs) <= limits.blocks
    ensures Used(after) <= limits.blocks
  {
    hide Apply, WithBytes, HoleResult;
    if !IntoHole(fs, op) {
      ApplyKeepsSpace(fs, limits, op);
    } else if reply.Done? {
      var bytes: seq<Byte> :| HoleResult(fs[op.i].bytes, op.offset, op.data, bytes)
        && after == WithBytes(fs, op.i, bytes, op.now);
      HoleKeepsSpace(fs, op, bytes);
    }
  }

  // No run makes the files outgrow the volume.
  lemma {:induction false} SpaceKept(fs: seq<File>, limits: Limits, ops: seq<Op>, replies: seq<Reply>, after: seq<File>)
    requires Reaches(fs, limits, ops, replies, after) && Used(fs) <= limits.blocks
    ensures Used(after) <= limits.blocks
    decreases |ops|
  {
    hide Outcome, Used;
    if ops != [] {
      var mid :| Passes(fs, limits, ops[0], replies[0], mid) && Reaches(mid, limits, ops[1..], replies[1..], after);
      OutcomeKeepsSpace(fs, limits, ops[0], replies[0], mid);
      SpaceKept(mid, limits, ops[1..], replies[1..], after);
    }
  }

  // ------------------------------------------------------------ real volumes

  function LimitsOf(header: Label): Limits {
    Limits(Capacity(header), if header.last >= header.first + 3 then MaxEntries(header) else 0)
  }

  ghost function Holding(v: Volume): seq<File>
    requires v.Valid()
    reads v, v.header, v.files, v.files.list, v.files.items, v.device.disk.image
  {
    Files(v.Snapshot())
  }

  lemma SameLimits(s: State, t: State)
    requires Sound(s) && Sound(t) && s.header.last == t.header.last && s.header.eov == t.header.eov
    ensures LimitsOf(s.header) == LimitsOf(t.header)
  {
  }

  lemma FewFiles(s: State)
    requires Sound(s)
    ensures LimitsOf(s.header).entries == MaxEntries(s.header)
    ensures s.header.last > 6 ==> LimitsOf(s.header).entries > 77
  {
  }

  // The write() of a volume is one of the outcomes.
  lemma WriteOutcome(s: State, limits: Limits, i: nat, offset: int, data: seq<Byte>, now: Date)
    requires Sound(s) && i < |s.entries| && limits.blocks == Capacity(s.header)
    ensures var (reply, after) := WriteVolume(s, i, offset, data, now);
      Outcome(Files(s), limits, Write(i, offset, data, now), reply, after)
  {
    hide Sound, Files, HoleBytes, WithBytes;
    if InHole(Files(s)[i].bytes, offset, data) {
      ReadableUnlessLast(s, i, offset, data);
      HoleBound(s, i, offset, data);
      AbortsExactly(s, i, offset, data, now);
      OwnBytes(s, i);
      FileSize(s, i);
      LastBlockEnd(s.entries[i], offset, |data|);
      if HoleReadable(s, i, offset) && |data| < 512 - offset % 512 {
        HoleInMedium(s, i, offset, data);
        HoleHolds(s.medium, s.entries[i].first * 512, |Files(s)[i].bytes|, offset, data);
      }
    }
  }

  lemma HoleHolds(V: seq<Byte>, base: nat, cur: nat, offset: nat, data: seq<Byte>)
    requires cur < offset && base + offset + offset % 2 + |data| <= |V|
    ensures HoleResult(V[base..base + cur], offset, data, HoleBytes(V, base, offset, data))
  {
  }

  lemma PlainOutcome(fs: seq<File>, limits: Limits, op: Op)
    requires Names(fs, op) && !op.Write?
    ensures var (reply, after) := Apply(fs, limits, op); Outcome(fs, limits, op, reply, after)
  {
    hide Apply;
  }

  // The operation has stored the directory.
  predicate Stores(op: Op, reply: Reply) {
    reply.Done? && !op.Crunch? && !op.Wipe? && (op.Write? ==> op.data != [])
  }

  predicate AnyStores(ops: seq<Op>, replies: seq<Reply>) {
    |replies| == |ops| && exists k: nat :: k < |ops| && Stores(ops[k], replies[k])
  }

  // What mounting a medium gives, when there are ordered, disjoint files on it.
  predicate Mountable(V: seq<Byte>) {
    && DIRECTORY + BUFFER <= |V|
    && var parsed := ReadDirectory(V[DIRECTORY..DIRECTORY + BUFFER]);
       parsed.Parsed? && Sound(State(parsed.sex, parsed.header, parsed.entries, V))
  }

  function Mounted(V: seq<Byte>): (s: State)
    requires Mountable(V)
    ensures Sound(s)
  {
    var parsed := ReadDirectory(V[DIRECTORY..DIRECTORY + BUFFER]);
    State(parsed.sex, parsed.header, parsed.entries, V)
  }

  // One operation on a volume is that operation on the list of its files.
  method Step(v: Volume, op: Op) returns (reply: Reply)
    requires v.Valid() && Allowed(Holding(v), LimitsOf(v.header.Value()), op)
    modifies v.files, v.files.list, v.files.items, v.header, v.device.disk.image
    ensures v.Valid() && LimitsOf(v.header.Value()) == old(LimitsOf(v.header.Value()))
    ensures v.files.list == old(v.files.list) || fresh(v.files.list)
    ensures forall f :: f in v.files.items ==> f in old(v.files.items) || fresh(f)
    ensures Outcome(old(Holding(v)), old(LimitsOf(v.header.Value())), op, reply, Holding(v))
    ensures old(v.Stored()) || Stores(op, reply) ==> v.Stored()
  {
    hide Volume.Valid, Volume.Stored, Holding, LimitsOf, Outcome, Allowed, Stores;
    if op.MkNod? {
      reply := StepMkNod(v, op);
    } else if op.Unlink? {
      reply := StepUnlink(v, op);
    } else if op.Write? {
      reply := StepWrite(v, op);
    } else {
      reply := StepInPlace(v, op);
    }
  }

  // The operations that change the list of files.
  method StepMkNod(v: Volume, op: Op) returns (reply: Reply)
    requires v.Valid() && Allowed(Holding(v), LimitsOf(v.header.Value()), op) && op.MkNod?
    modifies v.files, v.files.list, v.header, v.device.disk.image
    ensures v.Valid() && LimitsOf(v.header.Value()) == old(LimitsOf(v.header.Value()))
    ensures v.files.list == old(v.files.list) || fresh(v.files.list)
    ensures forall f :: f in v.files.items ==> f in old(v.files.items) || fresh(f)
    ensures Outcome(old(Holding(v)), old(LimitsOf(v.header.Value())), op, reply, Holding(v))
    ensures old(v.Stored()) || Stores(op, reply) ==> v.Stored()
  {
    hide Sound, Synced, Files, LimitsOf, Outcome;
    ghost var s := v.Snapshot();
    PlainOutcome(Files(s), LimitsOf(s.header), op);
    FewFiles(s);
    reply := v.MkNod(op.name, op.kind, op.now);
    SameLimits(s, v.Snapshot());
  }

  method StepUnlink(v: Volume, op: Op) returns (reply: Reply)
    requires v.Valid() && Allowed(Holding(v), LimitsOf(v.header.Value()), op) && op.Unlink?
    modifies v.files, v.files.list, v.header, v.device.disk.image
    ensures v.Valid() && LimitsOf(v.header.Value()) == old(LimitsOf(v.header.Value()))
    ensures v.files.list == old(v.files.list)
    ensures forall f :: f in v.files.items ==> f in old(v.files.items)
    ensures Outcome(old(Holding(v)), old(LimitsOf(v.header.Value())), op, reply, Holding(v))
    ensures old(v.Stored()) || Stores(op, reply) ==> v.Stored()
  {
    hide Sound, Synced, Files, LimitsOf, Outcome;
    ghost var s := v.Snapshot();
    PlainOutcome(Files(s), LimitsOf(s.header), op);
    var dep := v.files.Nth(op.i);
    reply := v.Unlink(dep, op.i, op.now);
    SameLimits(s, v.Snapshot());
  }

  method StepWrite(v: Volume, op: Op) returns (reply: Reply)
    requires v.Valid() && Allowed(Holding(v), LimitsOf(v.header.Value()), op) && op.Write?
    modifies v.files.items, v.header, v.device.disk.image
    ensures v.Valid() && LimitsOf(v.header.Value()) == old(LimitsOf(v.header.Value()))
    ensures Outcome(old(Holding(v)), old(LimitsOf(v.header.Value())), op, reply, Holding(v))
    ensures old(v.Stored()) || Stores(op, reply) ==> v.Stored()
  {
    hide Sound, Synced, Files, MaxEntries, WriteVolume, WriteFile, InHole, Capacity, Outcome;
    WriteOutcome(v.Snapshot(), LimitsOf(v.header.Value()), op.i, op.offset, op.data, op.now);
    var dep := v.files.Nth(op.i);
    reply := v.Write(dep, op.i, op.offset, op.data, op.now);
  }

  // The other operations that leave the list of files alone.
  method StepInPlace(v: Volume, op: Op) returns (reply: Reply)
    requires v.Valid() && Allowed(Holding(v), LimitsOf(v.header.Value()), op)
    requires op.Truncate? || op.Crunch? || op.Wipe?
    modifies v.files.items, v.header, v.device.disk.image
    ensures v.Valid() && LimitsOf(v.header.Value()) == old(LimitsOf(v.header.Value()))
    ensures Outcome(old(Holding(v)), old(LimitsOf(v.header.Value())), op, reply, Holding(v))
    ensures old(v.Stored()) || Stores(op, reply) ==> v.Stored()
  {
    hide Sound, Synced, Files, MaxEntries, TruncateFile, Capacity, Outcome;
    PlainOutcome(Holding(v), LimitsOf(v.header.Value()), op);
    match op
    case Truncate(i, size, now) =>
      var dep := v.files.Nth(i);
      reply := v.Truncate(dep, i, size, now);
    case Crunch =>
      var _ := v.Crunch();
      reply := Done(0);
    case Wipe =>
      v.WipeUnused();
      reply := Done(0);
  }

  // Any run of allowed operations, up to its end or to where the program ends before,
  // keeps the volume sound, and its files and the replies are what the same run may make
  // of a plain list. The directory is stored at the end if it was at the start, or if any
  // operation has stored it.
  method RunOn(v: Volume, ops: seq<Op>) returns (replies: seq<Reply>)
    requires v.Valid() && Safe(Holding(v), LimitsOf(v.header.Value()), ops)
    modifies v.files, v.files.list, v.files.items, v.header, v.device.disk.image
    ensures v.Valid() && LimitsOf(v.header.Value()) == old(LimitsOf(v.header.Value()))
    ensures |replies| <= |ops|
    ensures Reaches(old(Holding(v)), old(LimitsOf(v.header.Value())), ops[..|replies|], replies, Holding(v))
    ensures |replies| < |ops|
      ==> Outcome(Holding(v), LimitsOf(v.header.Value()), ops[|replies|], Crashed, Holding(v))
    ensures old(v.Stored()) || AnyStores(ops[..|replies|], replies) ==> v.Stored()
  {
    hide Volume.Valid, Volume.Stored, Holding, LimitsOf, Outcome, Allowed, Sound, Synced, Safe, Reaches, Passes,
      AnyStores, Stores;
    ghost var limits, fs0 := LimitsOf(v.header.Value()), Holding(v);
    ReachesSame(fs0, limits);
    NoneStores();
    assert ops[0..] == ops && ops[..0] == [];
    replies := [];
    while |replies| < |ops|
      invariant |replies| <= |ops| && v.Valid() && LimitsOf(v.header.Value()) == limits
      invariant v.files.list == old(v.files.list) || fresh(v.files.list)
      invariant forall f :: f in v.files.items ==> f in old(v.files.items) || fresh(f)
      invariant Safe(Holding(v), limits, ops[|replies|..])
      invariant Reaches(fs0, limits, ops[..|replies|], replies, Holding(v))
      invariant old(v.Stored()) || AnyStores(ops[..|replies|], replies) ==> v.Stored()
    {
      var n := |replies|;
      ghost var mid := Holding(v);
      SafeNext(mid, limits, ops, n);
      assert forall i: nat | i < |v.files.items| :: v.files.items[i] in old(v.files.items) || fresh(v.files.items[i]);
      var reply := Step(v, ops[n]);
      if reply.Crashed? {
        CrashKeeps(mid, limits, ops[n], Holding(v));
        return;
      }
      StepPasses(mid, limits, ops[n], reply, Holding(v));
      ReachesNext(fs0, limits, ops[..n], replies, mid, ops[n], reply, Holding(v));
      StoresNext(ops[..n], replies, ops[n], reply);
      assert ops[..n + 1] == ops[..n] + [ops[n]];
      replies := replies + [reply];
    }
  }

  lemma CrashKeeps(fs: seq<File>, limits: Limits, op: Op, after: seq<File>)
    requires Outcome(fs, limits, op, Crashed, after)
    ensures after == fs
  {
  }

  lemma StepPasses(fs: seq<File>, limits: Limits, op: Op, reply: Reply, after: seq<File>)
    requires Outcome(fs, limits, op, reply, after) && reply != Crashed
    ensures Passes(fs, limits, op, reply, after)
  {
    hide Outcome;
  }

  lemma ReachesSame(fs: seq<File>, limits: Limits)
    ensures Reaches(fs, limits, [], [], fs)
  {
  }

  lemma SafeNext(fs: seq<File>, limits: Limits, ops: seq<Op>, n: nat)
    requires n < |ops| && Safe(fs, limits, ops[n..])
    ensures Allowed(fs, limits, ops[n])
    ensures forall reply, after :: Passes(fs, limits, ops[n], reply, after) ==> Safe(after, limits, ops[n + 1..])
  {
    hide Passes, Allowed;
    assert ops[n..][1..] == ops[n + 1..];
  }

  lemma NoneStores()
    ensures !AnyStores([], [])
  {
  }

  lemma StoresNext(ops: seq<Op>, replies: seq<Reply>, op: Op, reply: Reply)
    requires |replies| == |ops|
    ensures AnyStores(ops + [op], replies + [reply]) <==> AnyStores(ops, replies) || Stores(op, reply)
  {
    hide Stores;
    if AnyStores(ops, replies) {
      var k: nat :| k < |ops| && Stores(ops[k], replies[k]);
      assert Stores((ops + [op])[k], (replies + [reply])[k]);
    }
    if Stores(op, reply) {
      assert Stores((ops + [op])[|ops|], (replies + [reply])[|ops|]);
    }
  }

  // Mounting a medium whose stored directory is sound, whatever else is on it, and a run.
  method RunMounted(d: Device, ops: seq<Op>) returns (v: Volume?, replies: seq<Reply>)
    requires d.Ready() && DIRECTORY + BUFFER <= d.Length() && Mountable(d.Contents())
    requires Safe(Files(Mounted(d.Contents())), LimitsOf(Mounted(d.Contents()).header), ops)
    modifies d.disk.image
    ensures v != null && v.Valid() && v.device == d && |replies| <= |ops|
    ensures var s := Mounted(old(d.Contents()));
      && Reaches(Files(s), LimitsOf(s.header), ops[..|replies|], replies, Holding(v))
      && (|replies| < |ops| ==> Outcome(Holding(v), LimitsOf(s.header), ops[|replies|], Crashed, Holding(v)))
      && (AnyStores(ops[..|replies|], replies) ==> v.Stored())
  {
    hide Volume.Valid, Volume.Stored, LimitsOf, Outcome, Sound, Synced, Safe, Reaches, ReadDirectory, Files, AnyStores;
    v := Volume.MetaRead(d);
    assert v.Valid() && Holding(v) == Files(Mounted(d.Contents()));
    replies := RunOn(v, ops);
  }

  // Mounting the medium again, at any time the directory is stored, shows the same files.
  method Remount(v: Volume) returns (again: Volume?)
    requires v.Stored()
    ensures again != null && fresh(again) && again.Stored() && again.sex == v.sex
    ensures again.header.Value() == AsStored(v.header.Value()) && Holding(again) == Holding(v)
  {
    hide Sound, Synced, ReadDirectory, Files, AsStored;
    ghost var s := v.Snapshot();
    SyncedReads(s);
    again := Volume.MetaRead(v.device);
    AsStoredSame(s, again.Snapshot());
  }

  lemma AsStoredSame(s: State, t: State)
    requires Sound(s) && Synced(s) && t == s.(header := AsStored(s.header))
    ensures Sound(t) && Synced(t) && Files(t) == Files(s)
  {
    hide StoredAt, EntriesBytes, Contents;
    assert LabelBytes(s.sex, t.header) == LabelBytes(s.sex, s.header);
    assert Directory(s.sex, t.header, s.entries) == Directory(s.sex, s.header, s.entries);
    SameFiles(s, t);
  }
}
