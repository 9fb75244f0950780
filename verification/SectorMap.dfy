/**
 The sector filters: which bytes of the flat image a stack of them shows, and how
 bytes put into the stack end up in the image.
 */
module SectorMap {
  import opened Arithmetic
  import opened Bytes

  // Apple: 16 sectors of 256 bytes per track; PDP: 26 sectors of 128 bytes.
  datatype Kind = Apple | Pdp {
    function SectorsPerTrack(): (n: nat)
      ensures n > 0
    {
      if Apple? then 16 else 26
    }

    function BytesPerSector(): (n: nat)
      ensures n > 0
    {
      if Apple? then 256 else 128
    }
  }

  // A stack of filters over a flat image whose medium has sectors of bps bytes.
  datatype Layer =
    | Flat(bps: nat)
    | Interleaved(kind: Kind, deeper: Layer)
    | Offset(deeper: Layer, skip: nat)

  // bytes_per_sector()
  function Bps(layer: Layer): nat {
    match layer
    case Flat(bps) => bps
    case Interleaved(kind, _) => kind.BytesPerSector()
    case Offset(_, _) => 256
  }

  // size_in_bytes(): a whole number of sectors.
  function Size(layer: Layer, length: nat): nat {
    match layer
    case Flat(bps) => if bps == 0 then 0 else length / bps * bps
    case Interleaved(_, d) => Size(d, length)
    case Offset(d, skip) => if skip <= Size(d, length) then (Size(d, length) - skip) / 256 * 256 else 0
  }

  // A sector size is a power of two, at most 512; what an interleaved layer sees
  // is a whole number of its tracks.
  predicate Fits(layer: Layer, length: nat) {
    match layer
    case Flat(bps) => bps in {64, 128, 256, 512}
    case Interleaved(kind, d) =>
      Fits(d, length) && Size(d, length) % (kind.SectorsPerTrack() * kind.BytesPerSector()) == 0
    case Offset(d, skip) => Fits(d, length) && skip <= Size(d, length)
  }

  // A stack shows whole sectors only: of its medium, or of what is left behind an offset.
  lemma SizeIs(layer: Layer, length: nat)
    requires Fits(layer, length)
    ensures layer.Flat? ==>
      Bps(layer) == layer.bps && Size(layer, length) % layer.bps == 0 && 0 <= length - Size(layer, length) < layer.bps
    ensures layer.Interleaved? ==>
      Bps(layer) == (if layer.kind == Apple then 256 else 128) && Size(layer, length) == Size(layer.deeper, length)
    ensures layer.Offset? ==>
      && Bps(layer) == 256 && Size(layer, length) % 256 == 0
      && 0 <= Size(layer.deeper, length) - layer.skip - Size(layer, length) < 256
  {
    if layer.Flat? {
      Whole(length, layer.bps);
      DivMod(length / layer.bps, 0, layer.bps);
    }
  }

  // n bytes at pos lie within what the stack shows of an image.
  predicate Within(layer: Layer, length: nat, pos: nat, n: nat) {
    Fits(layer, length) && pos + n <= Size(layer, length)
  }

  // --------------------------------------------------------- sector numbers

  // Apple: 0, 14, 13, ..., 1, 15.
  function ApplePattern(s: nat): (p: nat)
    requires s < 16
    ensures p < 16
  {
    if s == 0 || s == 15 then s else 15 - s
  }

  // PDP: even sectors first, then odd ones.
  function PdpPattern(s: nat): nat {
    if s < 13 then 2 * s else 2 * (s - 13) + 1
  }

  // PDP: every track is skewed by six sectors against the one before.
  function PdpMapSector(track: nat, s: nat): nat {
    (PdpPattern(s) + (track % 13) * 6) % 26
  }

  // map(): the deeper sector that holds this one.
  function Map(kind: Kind, sector: nat): nat {
    match kind
    case Apple => sector / 16 * 16 + ApplePattern(sector % 16)
    case Pdp => sector / 26 * 26 + PdpMapSector(sector / 26, sector % 26)
  }

  // The way back.
  function PdpUnpattern(p: nat): nat {
    if p % 2 == 0 then p / 2 else 13 + p / 2
  }

  function Unmap(kind: Kind, sector: nat): nat {
    match kind
    case Apple => sector / 16 * 16 + ApplePattern(sector % 16)
    case Pdp => sector / 26 * 26 + PdpUnpattern((sector % 26 + 26 * 3 - (sector / 26 % 13) * 6) % 26)
  }

  lemma PdpSkew(k: nat, s: nat)
    requires k < 13 && s < 26
    ensures PdpUnpattern(((PdpPattern(s) + k * 6) % 26 + 26 * 3 - k * 6) % 26) == s
  {
    var p := PdpPattern(s);
    SkewForth(k, p);
  }

  lemma SkewForth(k: nat, p: nat)
    requires k < 13 && p < 26
    ensures ((p + k * 6) % 26 + 26 * 3 - k * 6) % 26 == p
  {
    var q := (p + k * 6) / 26;
    Remainder((p + k * 6) % 26 + 26 * 3 - k * 6, 3 - q, p, 26);
  }

  lemma PdpPatternInverse(q: nat)
    requires q < 26
    ensures PdpUnpattern(q) < 26 && PdpPattern(PdpUnpattern(q)) == q
  {
  }

  lemma SkewBack(k: nat, p: nat)
    requires k < 13 && p < 26
    ensures ((p + 26 * 3 - k * 6) % 26 + k * 6) % 26 == p
  {
    var q := (p + 26 * 3 - k * 6) / 26;
    Remainder((p + 26 * 3 - k * 6) % 26 + k * 6, 3 - q, p, 26);
  }

  lemma PdpBijective(sector: nat)
    ensures Map(Pdp, sector) / 26 == sector / 26 && Unmap(Pdp, sector) / 26 == sector / 26
    ensures Unmap(Pdp, Map(Pdp, sector)) == sector
    ensures Map(Pdp, Unmap(Pdp, sector)) == sector
  {
    hide PdpPattern, PdpUnpattern;
    var track, s := sector / 26, sector % 26;
    var q := (s + 26 * 3 - (track % 13) * 6) % 26;
    DivMod(track, PdpMapSector(track, s), 26);
    PdpSkew(track % 13, s);
    PdpPatternInverse(q);
    SkewBack(track % 13, s);
    DivMod(track, PdpUnpattern(q), 26);
  }

  // Both maps permute the sectors of each track, for any number of tracks.
  lemma MapBijective(kind: Kind, sector: nat)
    ensures Map(kind, sector) / kind.SectorsPerTrack() == sector / kind.SectorsPerTrack()
    ensures Unmap(kind, sector) / kind.SectorsPerTrack() == sector / kind.SectorsPerTrack()
    ensures Unmap(kind, Map(kind, sector)) == sector
    ensures Map(kind, Unmap(kind, sector)) == sector
  {
    if kind.Pdp? {
      PdpBijective(sector);
    }
  }

  // The first sector of a PDP track lies six on from that of the track before, ...
  lemma PdpTracksInOrder(track: nat)
    ensures Map(Pdp, 0) == 0
    ensures Map(Pdp, 26 * (track + 1)) % 26 == (Map(Pdp, 26 * track) % 26 + 6) % 26
  {
    hide Map;
    PdpPlace(0, 0);
    PdpPlace(track, 0);
    PdpPlace(track + 1, 0);
    SkewNext(track);
  }

  // ... and each further one two on from the one before it, but for the first odd one.
  lemma PdpInOrder(track: nat, s: nat)
    requires 0 < s < 26
    ensures Map(Pdp, 26 * track + s) % 26
      == (Map(Pdp, 26 * track + (s - 1)) % 26 + if s == 13 then 3 else 2) % 26
  {
    hide Map;
    PdpPlace(track, s);
    PdpPlace(track, s - 1);
    var x := PdpPattern(s - 1) + (track % 13) * 6;
    StepOn(x, PdpPattern(s) + (track % 13) * 6, if s == 13 then 3 else 2);
  }

  lemma PdpPlace(track: nat, s: nat)
    requires s < 26
    ensures Map(Pdp, 26 * track + s) == 26 * track + (PdpPattern(s) + (track % 13) * 6) % 26
    ensures Map(Pdp, 26 * track + s) % 26 == (PdpPattern(s) + (track % 13) * 6) % 26
  {
    DivMod(track, s, 26);
    DivMod(track, (PdpPattern(s) + (track % 13) * 6) % 26, 26);
  }

  lemma SkewNext(track: nat)
    ensures (track + 1) % 13 * 6 % 26 == (track % 13 * 6 % 26 + 6) % 26
  {
    var k := track % 13;
    StepOn(k * 6, (k + 1) * 6, 6);
    if k == 12 {
      assert (track + 1) % 13 == 0;
    } else {
      assert (track + 1) % 13 == k + 1;
    }
  }

  lemma StepOn(x: nat, y: nat, n: nat)
    requires y == x + n || y + 26 == x + n
    ensures y % 26 == (x % 26 + n) % 26
  {
  }

  // The first and the last sector of an Apple track stay, and each of the others lies one
  // back from the one before it.
  lemma AppleInOrder(track: nat, s: nat)
    requires s < 16
    ensures Map(Apple, 16 * track + s)
      == if s == 0 || s == 15 then 16 * track + s else if s == 1 then 16 * track + 14
         else Map(Apple, 16 * track + s - 1) - 1
  {
    DivMod(track, s, 16);
    if s > 0 {
      DivMod(track, s - 1, 16);
    }
  }

  // ------------------------------------------------ sizes that are mapped within

  // Every sector of a medium of size sectors is mapped to one it has.
  predicate MapsWithin(kind: Kind, size: nat) {
    forall s: nat | s < size :: Map(kind, s) < size
  }

  // A sector of an unfinished track of r sectors, skewed by k, that is mapped
  // beyond it.
  function Stray(k: nat, r: nat): nat
    requires k < 13
  {
    if 13 <= r <= 24 then (51 - 3 * k) % 13
    else if r == 25 then 13 + (103 - 6 * k) % 26 / 2
    else if r <= 6 * k % 26 then 0
    else (r + 1 - 6 * k % 26) / 2
  }

  lemma Remainder(x: int, q: int, r: int, n: int)
    requires 0 <= r < n && x == q * n + r
    ensures x % n == r
  {
    if x / n < q {
      Product(q - x / n - 1, n);
    } else if x / n > q {
      Product(x / n - q - 1, n);
    }
  }

  lemma Product(a: int, b: int)
    requires a >= 0 && b >= 0
    ensures a * b >= 0
  {
  }

  lemma StrayTo24(k: nat)
    requires k < 13
    ensures var s := (51 - 3 * k) % 13; s < 13 && (2 * s + k * 6) % 26 == 24
  {
    var h, s := (51 - 3 * k) / 13, (51 - 3 * k) % 13;
    Remainder(2 * s + k * 6, 3 - h, 24, 26);
  }

  lemma StrayTo25(k: nat)
    requires 0 < k < 13
    ensures var v := (103 - 6 * k) % 26; v % 2 == 1 && v < 25 && (v + k * 6) % 26 == 25
  {
    var h, v := (103 - 6 * k) / 26, (103 - 6 * k) % 26;
    Remainder(v + k * 6, 3 - h, 25, 26);
  }

  lemma PdpStrays(k: nat, r: nat)
    requires k < 13 && 0 < r < 26 && (k == 0 ==> r != 1 && r != 25)
    ensures Stray(k, r) < r <= (PdpPattern(Stray(k, r)) + k * 6) % 26
  {
    if 13 <= r <= 24 {
      StrayTo24(k);
    } else if r == 25 {
      StrayTo25(k);
    } else if 6 * k % 26 < r {
      var s := (r + 1 - 6 * k % 26) / 2;
      Remainder(2 * s + k * 6, k * 6 / 26, 2 * s + k * 6 % 26, 26);
    }
  }

  lemma UnskewedStays(r: nat, s: nat)
    requires s < r && (r == 1 || r == 25)
    ensures PdpPattern(s) < r
  {
  }

  lemma InTrack(size: nat, s: nat, n: nat)
    requires s < size && n > 0
    ensures s / n < size / n || (s / n == size / n && s % n < size % n)
  {
    Whole(s, n);
    Whole(size, n);
    if s / n > size / n {
      Scale(size / n + 1, s / n, n);
    }
  }

  lemma EarlierTrack(size: nat, m: nat, n: nat)
    requires n > 0 && m / n < size / n
    ensures m < size
  {
    Whole(m, n);
    Whole(size, n);
    Scale(m / n + 1, size / n, n);
  }

  // Besides whole tracks the PDP filter keeps to 1 or to 25 sectors of a track
  // that is not skewed, and to nothing else.
  lemma PdpMapsWithin(size: nat)
    ensures MapsWithin(Pdp, size) <==> size % 26 == 0 || (size / 26 % 13 == 0 && size % 26 in {1, 25})
  {
    hide PdpMapSector, PdpPattern, Stray;
    var t, r := size / 26, size % 26;
    var k := t % 13;
    if r == 0 || (k == 0 && (r == 1 || r == 25)) {
      forall s: nat | s < size ensures Map(Pdp, s) < size {
        PdpBijective(s);
        InTrack(size, s, 26);
        if s / 26 < t {
          EarlierTrack(size, Map(Pdp, s), 26);
        } else {
          PdpLastTrack(size, s);
        }
      }
    } else {
      PdpStrays(k, r);
      var s := Stray(k, r);
      DivMod(t, s, 26);
      assert Map(Pdp, t * 26 + s) >= size by { PdpTrackOf(t, s, r); }
    }
  }

  lemma PdpTrackOf(t: nat, s: nat, r: nat)
    requires s < 26
    ensures Map(Pdp, t * 26 + s) == t * 26 + (PdpPattern(s) + (t % 13) * 6) % 26
  {
    DivMod(t, s, 26);
  }

  lemma PdpLastTrack(size: nat, s: nat)
    requires s / 26 == size / 26 && s % 26 < size % 26
    requires size / 26 % 13 == 0 && (size % 26 == 1 || size % 26 == 25)
    ensures Map(Pdp, s) < size
  {
    UnskewedStays(size % 26, s % 26);
  }

  // The Apple filter exchanges the sectors 1 to 14 of a track.
  lemma AppleMapsWithin(size: nat)
    ensures MapsWithin(Apple, size) <==> size % 16 in {0, 1, 15}
  {
    var t, r := size / 16, size % 16;
    if r in {0, 1, 15} {
      forall s: nat | s < size ensures Map(Apple, s) < size {
        InTrack(size, s, 16);
      }
    } else {
      DivMod(t, 1, 16);
      assert Map(Apple, t * 16 + 1) == t * 16 + 14;
    }
  }

  // What size_multiple_in_bytes() of the PDP filter asks for, a multiple of 26 * 7
  // bytes, does not keep sectors within: of 91 sectors, sector 81 is sector 102.
  lemma PdpMultipleFails()
    ensures (91 * Pdp.BytesPerSector()) % (26 * 7) == 0
    ensures !MapsWithin(Pdp, 91) && Map(Pdp, 81) == 102
  {
    assert Map(Pdp, 81) == 102;
  }

  // ------------------------------------------------------------ byte numbers

  function Deeper(kind: Kind, i: nat): nat {
    var n := kind.BytesPerSector();
    Map(kind, i / n) * n + i % n
  }

  function Shallower(kind: Kind, i: nat): nat {
    var n := kind.BytesPerSector();
    Unmap(kind, i / n) * n + i % n
  }

  lemma DeeperShallower(kind: Kind, i: nat)
    ensures Deeper(kind, Shallower(kind, i)) == i && Shallower(kind, Deeper(kind, i)) == i
  {
    hide Map, Unmap;
    var n := kind.BytesPerSector();
    MapBijective(kind, i / n);
    DivMod(Unmap(kind, i / n), i % n, n);
    DivMod(Map(kind, i / n), i % n, n);
  }

  lemma AppleRange(m: nat, i: nat, size: nat)
    requires m / 16 == i / 256 / 16 && i < size && size % 4096 == 0
    ensures m * 256 + i % 256 < size
  {
    Whole(i, 256);
    Whole(i / 256, 16);
    Whole(m, 16);
    Whole(size, 4096);
    assert m <= i / 256 / 16 * 16 + 15;
    assert i / 256 / 16 < size / 4096;
  }

  lemma PdpRange(m: nat, i: nat, size: nat)
    requires m / 26 == i / 128 / 26 && i < size && size % 3328 == 0
    ensures m * 128 + i % 128 < size
  {
    Whole(i, 128);
    Whole(i / 128, 26);
    Whole(m, 26);
    Whole(size, 3328);
    assert m <= i / 128 / 26 * 26 + 25;
    assert i / 128 / 26 < size / 3328;
  }

  // Whole tracks are mapped onto themselves.
  lemma InRange(kind: Kind, i: nat, size: nat)
    requires i < size && size % (kind.SectorsPerTrack() * kind.BytesPerSector()) == 0
    ensures Deeper(kind, i) < size && Shallower(kind, i) < size
  {
    hide Map, Unmap;
    var n := kind.BytesPerSector();
    MapBijective(kind, i / n);
    match kind
    case Apple =>
      AppleRange(Map(kind, i / n), i, size);
      AppleRange(Unmap(kind, i / n), i, size);
    case Pdp =>
      PdpRange(Map(kind, i / n), i, size);
      PdpRange(Unmap(kind, i / n), i, size);
  }

  predicate WholeTracks(kind: Kind, n: nat) {
    n % (kind.SectorsPerTrack() * kind.BytesPerSector()) == 0
  }

  // The bytes of whole tracks, in the order the filter shows them.
  function Shuffle(kind: Kind, v: seq<Byte>): (r: seq<Byte>)
    requires WholeTracks(kind, |v|)
    ensures |r| == |v|
  {
    seq(|v|, i requires 0 <= i < |v| => InRange(kind, i, |v|); v[Deeper(kind, i)])
  }

  function Unshuffle(kind: Kind, v: seq<Byte>): (r: seq<Byte>)
    requires WholeTracks(kind, |v|)
    ensures |r| == |v|
  {
    seq(|v|, i requires 0 <= i < |v| => InRange(kind, i, |v|); v[Shallower(kind, i)])
  }

  lemma ShuffleInverse(kind: Kind, v: seq<Byte>)
    requires WholeTracks(kind, |v|)
    ensures Unshuffle(kind, Shuffle(kind, v)) == v
    ensures Shuffle(kind, Unshuffle(kind, v)) == v
  {
    forall i: nat | i < |v|
      ensures Unshuffle(kind, Shuffle(kind, v))[i] == v[i]
      ensures Shuffle(kind, Unshuffle(kind, v))[i] == v[i]
    {
      InRange(kind, i, |v|);
      DeeperShallower(kind, i);
    }
  }

  // Overwriting a sector as shown overwrites the sector it is mapped to.
  lemma ShuffleSector(kind: Kind, v: seq<Byte>, sector: nat, d: seq<Byte>)
    requires WholeTracks(kind, |v|) && |d| == kind.BytesPerSector()
    requires (sector + 1) * |d| <= |v|
    ensures (Map(kind, sector) + 1) * |d| <= |v|
    ensures Unshuffle(kind, Overlay(Shuffle(kind, v), sector * |d|, d)) == Overlay(v, Map(kind, sector) * |d|, d)
  {
    hide Map, Unmap;
    var n := kind.BytesPerSector();
    MapBijective(kind, sector);
    InRange(kind, sector * n + (n - 1), |v|);
    DivMod(sector, n - 1, n);
    var l, r := Unshuffle(kind, Overlay(Shuffle(kind, v), sector * n, d)), Overlay(v, Map(kind, sector) * n, d);
    forall i: nat | i < |v| ensures l[i] == r[i] {
      InRange(kind, i, |v|);
      DeeperShallower(kind, i);
      ShallowerSector(kind, i, sector);
    }
  }

  lemma ShallowerSector(kind: Kind, i: nat, sector: nat)
    ensures var n := kind.BytesPerSector();
      && (sector * n <= Shallower(kind, i) < sector * n + n <==> i / n == Map(kind, sector))
      && (i / n == Map(kind, sector) <==> Map(kind, sector) * n <= i < Map(kind, sector) * n + n)
      && (i / n == Map(kind, sector) ==> Shallower(kind, i) - sector * n == i - Map(kind, sector) * n)
  {
    hide Map, Unmap;
    var n := kind.BytesPerSector();
    MapBijective(kind, i / n);
    MapBijective(kind, sector);
    DivMod(Unmap(kind, i / n), i % n, n);
  }

  lemma ShuffleReadSector(kind: Kind, v: seq<Byte>, sector: nat)
    requires WholeTracks(kind, |v|) && (sector + 1) * kind.BytesPerSector() <= |v|
    ensures var n := kind.BytesPerSector();
      && (Map(kind, sector) + 1) * n <= |v|
      && Shuffle(kind, v)[sector * n..sector * n + n] == v[Map(kind, sector) * n..Map(kind, sector) * n + n]
  {
    hide Map, Deeper;
    var n := kind.BytesPerSector();
    InRange(kind, sector * n + (n - 1), |v|);
    DeeperInSector(kind, sector, n - 1);
    var m := Map(kind, sector);
    var l, r := Shuffle(kind, v)[sector * n..sector * n + n], v[m * n..m * n + n];
    forall j: nat | j < n ensures l[j] == r[j] {
      DeeperInSector(kind, sector, j);
      assert l[j] == Shuffle(kind, v)[sector * n + j] && r[j] == v[m * n + j];
    }
  }

  lemma DeeperInSector(kind: Kind, sector: nat, j: nat)
    requires j < kind.BytesPerSector()
    ensures Deeper(kind, sector * kind.BytesPerSector() + j) == Map(kind, sector) * kind.BytesPerSector() + j
  {
    hide Map;
    DivMod(sector, j, kind.BytesPerSector());
  }
}
