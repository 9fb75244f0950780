/**
 Reading and writing through a stack of sector filters: any stack behaves as one
 flat byte array.
 */
module SectorIo {
  import opened Arithmetic
  import opened Bytes
  import opened SectorMap
  import opened SectorView

  // The n bytes shown at pos.
  function Part(layer: Layer, image: seq<Byte>, pos: nat, n: nat): (r: seq<Byte>)
    requires Within(layer, |image|, pos, n)
    ensures |r| == n
  {
    View(layer, image)[pos..pos + n]
  }

  lemma {:induction false} SizeMultiple(layer: Layer, length: nat)
    requires Fits(layer, length)
    ensures Bps(layer) in {64, 128, 256, 512} && Size(layer, length) % Bps(layer) == 0
  {
    match layer
    case Flat(bps) =>
      DivMod(length / bps, 0, bps);
    case Interleaved(kind, d) =>
      WholeSectors(kind, Size(d, length));
    case Offset(d, skip) =>
  }

  lemma WholeSectors(kind: Kind, size: nat)
    requires size % (kind.SectorsPerTrack() * kind.BytesPerSector()) == 0
    ensures size % kind.BytesPerSector() == 0
  {
    match kind
    case Apple => assert size % 4096 == 0;
    case Pdp => assert size % 3328 == 0;
  }

  // The sector an unaligned access starts in, and where it gets to.
  lemma FirstSector(layer: Layer, length: nat, pos: nat, n: nat)
    requires Within(layer, length, pos, n)
    ensures Bps(layer) > 0
    ensures var bps := Bps(layer);
      && 0 <= pos / bps && 0 <= pos % bps < bps && pos == pos / bps * bps + pos % bps
      && (pos / bps + 1) * bps == pos - pos % bps + bps
      && (pos % bps != 0 ==> Within(layer, length, pos / bps * bps, bps))
  {
    hide Fits, Size, Bps;
    SizeMultiple(layer, length);
    if pos % Bps(layer) != 0 {
      RoundDown(pos, Bps(layer), Size(layer, length));
    }
  }

  // Every later sector.
  lemma NextSector(layer: Layer, length: nat, pos: nat, n: nat, done: nat, secnum: nat)
    requires Within(layer, length, pos, n) && done < n && secnum * Bps(layer) == pos + done
    ensures Bps(layer) > 0 && Within(layer, length, secnum * Bps(layer), Bps(layer))
    ensures (secnum + 1) * Bps(layer) == pos + done + Bps(layer)
    ensures Within(layer, length, pos, done) && done <= n
  {
    hide Fits, Size, Bps;
    SizeMultiple(layer, length);
    DivMod(secnum, 0, Bps(layer));
    RoundDown(pos + done, Bps(layer), Size(layer, length));
  }

  lemma RoundDown(pos: nat, n: nat, size: nat)
    requires n > 0 && size % n == 0 && pos <= size && (pos < size || pos % n != 0)
    ensures pos / n * n + n <= size
  {
    var q, m := pos / n, size / n;
    Whole(pos, n);
    Whole(size, n);
    if q < m {
      Scale(q + 1, m, n);
    } else {
      Scale(m, q, n);
    }
  }

  lemma WithinPart(layer: Layer, length: nat, pos: nat, n: nat, m: nat)
    requires Within(layer, length, pos, n) && m <= n
    ensures Within(layer, length, pos, m)
  {
  }

  lemma WithinInside(layer: Layer, length: nat, pos: nat, n: nat, from: nat, m: nat)
    requires Within(layer, length, pos, n) && from + m <= n
    ensures Within(layer, length, pos + from, m) && Within(layer, length, pos, from + m)
  {
  }

  lemma WrittenStart(layer: Layer, image: seq<Byte>, pos: nat, data: seq<Byte>)
    requires Within(layer, |image|, pos, |data|)
    ensures Within(layer, |image|, pos, 0) && Written(layer, image, pos, data[..0]) == image
  {
    WrittenNothing(layer, image, pos);
  }

  lemma WrittenNext(layer: Layer, image: seq<Byte>, pos: nat, data: seq<Byte>, done: nat, m: nat)
    requires done + m <= |data| && Within(layer, |image|, pos, done + m)
    ensures Within(layer, |image|, pos, done) && Within(layer, |image|, pos + done, m)
    ensures Written(layer, Written(layer, image, pos, data[..done]), pos + done, data[done..done + m])
         == Written(layer, image, pos, data[..done + m])
  {
    hide Fits, Size, Written;
    WrittenAppend(layer, image, pos, data[..done], data[done..done + m]);
    assert data[..done] + data[done..done + m] == data[..done + m];
  }

  lemma ZerosPart(n: nat, from: nat, m: nat)
    requires from + m <= n
    ensures Zeros(n)[from..from + m] == Zeros(m)
  {
  }

  lemma PartPart(layer: Layer, image: seq<Byte>, pos: nat, n: nat, from: nat, m: nat)
    requires Within(layer, |image|, pos, n) && from + m <= n
    ensures Within(layer, |image|, pos + from, m)
    ensures Part(layer, image, pos, n)[from..from + m] == Part(layer, image, pos + from, m)
  {
    hide View, Fits, Size;
    SliceSlice(View(layer, image), pos, n, from, m);
  }

  lemma PartAppend(layer: Layer, image: seq<Byte>, pos: nat, n: nat, m: nat)
    requires Within(layer, |image|, pos, n + m)
    ensures Within(layer, |image|, pos, n) && Within(layer, |image|, pos + n, m)
    ensures Part(layer, image, pos, n) + Part(layer, image, pos + n, m) == Part(layer, image, pos, n + m)
  {
  }

  // Reading through each kind of layer reads below it.
  lemma PartFlat(bps: nat, image: seq<Byte>, pos: nat, n: nat)
    requires Within(Flat(bps), |image|, pos, n)
    ensures pos + n <= |image| && Part(Flat(bps), image, pos, n) == image[pos..pos + n]
  {
  }

  lemma PartSector(kind: Kind, d: Layer, image: seq<Byte>, sector: nat)
    requires Within(Interleaved(kind, d), |image|, sector * kind.BytesPerSector(), kind.BytesPerSector())
    ensures Within(d, |image|, Map(kind, sector) * kind.BytesPerSector(), kind.BytesPerSector())
    ensures Part(d, image, Map(kind, sector) * kind.BytesPerSector(), kind.BytesPerSector())
         == Part(Interleaved(kind, d), image, sector * kind.BytesPerSector(), kind.BytesPerSector())
  {
    hide Map, Shuffle;
    ShuffleReadSector(kind, View(d, image), sector);
  }

  lemma PartOffset(d: Layer, skip: nat, image: seq<Byte>, pos: nat, n: nat)
    requires Within(Offset(d, skip), |image|, pos, n)
    ensures Within(d, |image|, skip + pos, n)
    ensures Part(d, image, skip + pos, n) == Part(Offset(d, skip), image, pos, n)
  {
    SliceSlice(View(d, image), skip, Size(Offset(d, skip), |image|), pos, n);
  }

  // Writing through a flat layer overwrites the image.
  lemma WrittenFlat(bps: nat, image: seq<Byte>, pos: nat, data: seq<Byte>)
    requires Within(Flat(bps), |image|, pos, |data|)
    ensures pos + |data| <= |image| && Written(Flat(bps), image, pos, data) == Overlay(image, pos, data)
  {
  }

  // What was not written over still shows.
  lemma PartElsewhere(layer: Layer, image: seq<Byte>, pos: nat, data: seq<Byte>, from: nat, n: nat)
    requires Within(layer, |image|, pos, |data|) && Within(layer, |image|, from, n)
    requires from + n <= pos || pos + |data| <= from
    ensures Part(layer, Written(layer, image, pos, data), from, n) == Part(layer, image, from, n)
  {
    hide Fits, Size, View, Written;
    ViewWritten(layer, image, pos, data);
    OverlayElsewhere(View(layer, image), pos, data, from, n);
  }

  lemma MoveNothing(layer: Layer, image: seq<Byte>, to: nat, from: nat, n: nat)
    requires Within(layer, |image|, to, n) && Within(layer, |image|, from, n)
    ensures Within(layer, |image|, to, 0) && Within(layer, |image|, from, 0)
    ensures Written(layer, image, to, Part(layer, image, from, 0)) == image
  {
    hide Fits, Size, View, Written;
    WrittenNothing(layer, image, to);
  }

  lemma OneMore(x: nat, n: nat)
    ensures 0 <= x * n && (x + 1) * n == x * n + n
  {
  }

  // Moving one more sector, working upwards ...
  lemma MoveUp(layer: Layer, image: seq<Byte>, to: nat, from: nat, n: nat, m: nat)
    requires Within(layer, |image|, to, n + m) && Within(layer, |image|, from, n + m) && to <= from
    ensures var moved := Written(layer, image, to, Part(layer, image, from, n));
      Written(layer, moved, to + n, Part(layer, moved, from + n, m))
        == Written(layer, image, to, Part(layer, image, from, n + m))
  {
    hide Fits, Size, View, Written, Part;
    PartElsewhere(layer, image, to, Part(layer, image, from, n), from + n, m);
    PartAppend(layer, image, from, n, m);
    WrittenAppend(layer, image, to, Part(layer, image, from, n), Part(layer, image, from + n, m));
  }

  // ... or downwards.
  lemma MoveDown(layer: Layer, image: seq<Byte>, to: nat, from: nat, m: nat, n: nat)
    requires Within(layer, |image|, to, m + n) && Within(layer, |image|, from, m + n) && from <= to
    ensures var moved := Written(layer, image, to + m, Part(layer, image, from + m, n));
      Written(layer, moved, to, Part(layer, moved, from, m))
        == Written(layer, image, to, Part(layer, image, from, m + n))
  {
    hide Fits, Size, View, Written, Part;
    PartElsewhere(layer, image, to + m, Part(layer, image, from + m, n), from, m);
    PartAppend(layer, image, from, m, n);
    WrittenPrepend(layer, image, to, Part(layer, image, from, m), Part(layer, image, from + m, n));
  }

  lemma WrittenSame(layer: Layer, image: seq<Byte>, pos: nat, n: nat)
    requires Within(layer, |image|, pos, n)
    ensures Written(layer, image, pos, Part(layer, image, pos, n)) == image
  {
    hide Fits, Size, View;
    var v := View(layer, image);
    assert Overlay(v, pos, v[pos..pos + n]) == v;
    PutView(layer, image);
  }

  class Disk {
    const image: array<Byte>

    constructor (a: array<Byte>)
      ensures image == a
    {
      image := a;
    }

    // ---------------------------------------------------------------- reading

    method ReadSector(layer: Layer, sector: nat) returns (data: seq<Byte>)
      requires Within(layer, image.Length, sector * Bps(layer), Bps(layer))
      ensures data == Part(layer, image[..], sector * Bps(layer), Bps(layer))
      decreases layer, 0
    {
      hide Within, Part, Map;
      match layer
      case Flat(bps) =>
        PartFlat(bps, image[..], sector * bps, bps);
        data := image[sector * bps..sector * bps + bps];
      case Interleaved(kind, d) =>
        PartSector(kind, d, image[..], sector);
        data := Read(d, Map(kind, sector) * kind.BytesPerSector(), kind.BytesPerSector());
      case Offset(d, skip) =>
        PartOffset(d, skip, image[..], sector * 256, 256);
        data := Read(d, skip + sector * 256, 256);
    }

    method Read(layer: Layer, pos: nat, n: nat) returns (data: seq<Byte>)
      requires Within(layer, image.Length, pos, n)
      ensures data == Part(layer, image[..], pos, n)
      decreases layer, 5
    {
      hide Within, Part;
      match layer
      case Flat(bps) =>
        PartFlat(bps, image[..], pos, n);
        data := image[pos..pos + n];
      case Interleaved(_, _) =>
        data := SectorRead(layer, pos, n);
      case Offset(d, skip) =>
        PartOffset(d, skip, image[..], pos, n);
        data := Read(d, skip + pos, n);
    }

    // Part of one sector.
    method ReadPartial(layer: Layer, secnum: nat, from: nat, n: nat) returns (data: seq<Byte>)
      requires Within(layer, image.Length, secnum * Bps(layer), Bps(layer)) && from + n <= Bps(layer)
      ensures Within(layer, image.Length, secnum * Bps(layer) + from, n)
      ensures data == Part(layer, image[..], secnum * Bps(layer) + from, n)
      decreases layer, 1
    {
      hide Within, Part, Bps;
      var partial := ReadSector(layer, secnum);
      PartPart(layer, image[..], secnum * Bps(layer), Bps(layer), from, n);
      data := partial[from..from + n];
    }

    // sector_io::read(): any bytes, a sector at a time.
    method SectorRead(layer: Layer, pos: nat, n: nat) returns (data: seq<Byte>)
      requires Within(layer, image.Length, pos, n)
      ensures data == Part(layer, image[..], pos, n)
      decreases layer, 4
    {
      hide *;
      FirstSector(layer, image.Length, pos, n);
      PartAppend(layer, image[..], pos, 0, n);
      var bps := Bps(layer);
      var nbytes, secnum, remainder := n, pos / bps, pos % bps;
      data := [];
      if remainder != 0 {
        var psize := if bps - remainder > nbytes then nbytes else bps - remainder;
        data := ReadPartial(layer, secnum, remainder, psize);
        nbytes := nbytes - psize;
        secnum := secnum + 1;
      }
      var rest := ReadOn(layer, pos, n, n - nbytes, secnum);
      PartAppend(layer, image[..], pos, n - nbytes, nbytes);
      data := data + rest;
    }

    // The rest of the sectors, once done bytes have been read.
    method ReadOn(layer: Layer, pos: nat, n: nat, done: nat, first: nat) returns (data: seq<Byte>)
      requires Within(layer, image.Length, pos, n) && done <= n && (done < n ==> first * Bps(layer) == pos + done)
      ensures Within(layer, image.Length, pos + done, n - done)
      ensures data == Part(layer, image[..], pos + done, n - done)
      decreases layer, 3
    {
      hide *;
      PartAppend(layer, image[..], pos, done, n - done);
      PartAppend(layer, image[..], pos + done, 0, n - done);
      var bps := Bps(layer);
      var at, secnum := done, first;
      data := [];
      while at < n
        invariant done <= at <= n && Within(layer, image.Length, pos + done, at - done)
        invariant data == Part(layer, image[..], pos + done, at - done)
        invariant at < n ==> secnum * bps == pos + at
      {
        NextSector(layer, image.Length, pos, n, at, secnum);
        var size := if n - at < bps then n - at else bps;
        WithinInside(layer, image.Length, pos + done, n - done, 0, at + size - done);
        var piece := ReadPiece(layer, secnum, size, pos + done, at - done);
        data := data + piece;
        at := at + size;
        secnum := secnum + 1;
      }
    }

    // A whole sector, or the first bytes of the last one, after the `got` bytes read
    // from start on.
    method ReadPiece(layer: Layer, sector: nat, size: nat, ghost start: nat, ghost got: nat) returns (data: seq<Byte>)
      requires size <= Bps(layer) && Within(layer, image.Length, sector * Bps(layer), Bps(layer))
      requires sector * Bps(layer) == start + got && Within(layer, image.Length, start, got + size)
      ensures Within(layer, image.Length, start, got)
      ensures Part(layer, image[..], start, got) + data == Part(layer, image[..], start, got + size) && |data| == size
      decreases layer, 2
    {
      hide *;
      PartAppend(layer, image[..], start, got, size);
      WithinInside(layer, image.Length, sector * Bps(layer), Bps(layer), 0, size);
      if size < Bps(layer) {
        data := ReadPartial(layer, sector, 0, size);
      } else {
        data := ReadSector(layer, sector);
      }
    }

    // ---------------------------------------------------------------- writing

    method WriteSector(layer: Layer, sector: nat, data: seq<Byte>)
      requires |data| == Bps(layer) && Within(layer, image.Length, sector * Bps(layer), Bps(layer))
      modifies image
      ensures image[..] == Written(layer, old(image[..]), sector * Bps(layer), data)
      decreases layer, 0
    {
      hide Written, Map, View, Put, Overlay;
      match layer
      case Flat(bps) =>
        WrittenFlat(bps, image[..], sector * bps, data);
        Store(image, sector * bps, data);
      case Interleaved(kind, d) =>
        PartSector(kind, d, image[..], sector);
        WrittenSector(kind, d, image[..], sector, data);
        Write(d, Map(kind, sector) * kind.BytesPerSector(), data);
      case Offset(d, skip) =>
        WrittenOffset(d, skip, image[..], sector * 256, data);
        Write(d, skip + sector * 256, data);
    }

    method Write(layer: Layer, pos: nat, data: seq<Byte>)
      requires Within(layer, image.Length, pos, |data|)
      modifies image
      ensures image[..] == Written(layer, old(image[..]), pos, data)
      decreases layer, 4
    {
      hide Written, View, Put, Overlay;
      match layer
      case Flat(bps) =>
        WrittenFlat(bps, image[..], pos, data);
        Store(image, pos, data);
      case Interleaved(_, _) =>
        SectorWrite(layer, pos, data);
      case Offset(d, skip) =>
        WrittenOffset(d, skip, image[..], pos, data);
        Write(d, skip + pos, data);
    }

    // Part of one sector: read it, replace the part, write it back.
    method WritePartial(layer: Layer, secnum: nat, from: nat, data: seq<Byte>)
      requires Within(layer, image.Length, secnum * Bps(layer), Bps(layer)) && from + |data| <= Bps(layer)
      modifies image
      ensures image[..] == Written(layer, old(image[..]), secnum * Bps(layer) + from, data)
      decreases layer, 1
    {
      hide Fits, Size, Bps, View, Written;
      var partial := ReadSector(layer, secnum);
      WrittenWithin(layer, image[..], secnum * Bps(layer), Bps(layer), from, data);
      WriteSector(layer, secnum, Overlay(partial, from, data));
    }

    // sector_io::write(): any bytes, a sector at a time.
    method SectorWrite(layer: Layer, pos: nat, data: seq<Byte>)
      requires Within(layer, image.Length, pos, |data|)
      modifies image
      ensures image[..] == Written(layer, old(image[..]), pos, data)
      decreases layer, 3
    {
      hide Within, Bps, Written, Fits, Size;
      ghost var V := image[..];
      FirstSector(layer, image.Length, pos, |data|);
      WrittenStart(layer, V, pos, data);
      var bps := Bps(layer);
      var nbytes, secnum, remainder := |data|, pos / bps, pos % bps;
      if remainder != 0 {
        var psize := if bps - remainder > nbytes then nbytes else bps - remainder;
        WithinPart(layer, image.Length, pos, |data|, psize);
        WritePartial(layer, secnum, remainder, data[..psize]);
        nbytes := nbytes - psize;
        secnum := secnum + 1;
      }
      while nbytes > 0
        invariant 0 <= nbytes <= |data| && Within(layer, |V|, pos, |data| - nbytes)
        invariant image[..] == Written(layer, V, pos, data[..|data| - nbytes])
        invariant nbytes > 0 ==> secnum * bps == pos + (|data| - nbytes)
      {
        NextSector(layer, image.Length, pos, |data|, |data| - nbytes, secnum);
        var psize := if nbytes < bps then nbytes else bps;
        WithinPart(layer, image.Length, pos, |data|, |data| - nbytes + psize);
        var piece := data[|data| - nbytes..|data| - nbytes + psize];
        WrittenNext(layer, V, pos, data, |data| - nbytes, psize);
        if nbytes < bps {
          WritePartial(layer, secnum, 0, piece);
          nbytes := 0;
          break;
        }
        WriteSector(layer, secnum, piece);
        nbytes := nbytes - bps;
        secnum := secnum + 1;
      }
      assert data[..|data|] == data;
    }

    // sector_io::write_zero(): the same as writing that many zeros.
    method WriteZero(layer: Layer, pos: nat, n: nat)
      requires Within(layer, image.Length, pos, n)
      modifies image
      ensures image[..] == Written(layer, old(image[..]), pos, Zeros(n))
    {
      hide Within, Bps, Written, Zeros;
      ghost var V, zeros := image[..], Zeros(n);
      FirstSector(layer, image.Length, pos, n);
      WrittenStart(layer, V, pos, zeros);
      var bps := Bps(layer);
      var nbytes, secnum, remainder := n, pos / bps, pos % bps;
      if remainder != 0 {
        var psize := if bps - remainder > nbytes then nbytes else bps - remainder;
        WithinPart(layer, image.Length, pos, n, psize);
        ZerosPart(n, 0, psize);
        WritePartial(layer, secnum, remainder, Zeros(psize));
        nbytes := nbytes - psize;
        secnum := secnum + 1;
      }
      while nbytes > 0
        invariant 0 <= nbytes <= n && Within(layer, |V|, pos, n - nbytes)
        invariant image[..] == Written(layer, V, pos, zeros[..n - nbytes])
        invariant nbytes > 0 ==> secnum * bps == pos + (n - nbytes)
      {
        NextSector(layer, image.Length, pos, n, n - nbytes, secnum);
        var psize := if nbytes < bps then nbytes else bps;
        WithinPart(layer, image.Length, pos, n, n - nbytes + psize);
        WrittenNext(layer, V, pos, zeros, n - nbytes, psize);
        ZerosPart(n, n - nbytes, psize);
        if nbytes < bps {
          WritePartial(layer, secnum, 0, Zeros(nbytes));
          nbytes := 0;
          break;
        }
        WriteSector(layer, secnum, Zeros(bps));
        nbytes := nbytes - bps;
        secnum := secnum + 1;
      }
      assert zeros[..n] == zeros;
    }

    // ----------------------------------------------------------------- moving

    // One sector of a move.
    method MoveSector(layer: Layer, to: nat, from: nat)
      requires Within(layer, image.Length, to * Bps(layer), Bps(layer))
      requires Within(layer, image.Length, from * Bps(layer), Bps(layer))
      modifies image
      ensures image[..] == Written(layer, old(image[..]), to * Bps(layer),
                                   Part(layer, old(image[..]), from * Bps(layer), Bps(layer)))
    {
      hide View, Fits, Size, Bps, Written, Part;
      var buffer := ReadSector(layer, from);
      WriteSector(layer, to, buffer);
    }

    // One more sector of a move of n bytes from f to t, of which `done` are moved.
    method MoveNext(layer: Layer, to: nat, from: nat,
                    ghost V: seq<Byte>, ghost t: nat, ghost f: nat, ghost n: nat, ghost done: nat)
      requires t <= f && done + Bps(layer) <= n && Within(layer, |V|, t, n) && Within(layer, |V|, f, n)
      requires to * Bps(layer) == t + done && from * Bps(layer) == f + done
      requires Within(layer, |V|, t, done) && Within(layer, |V|, f, done)
      requires |V| == image.Length && image[..] == Written(layer, V, t, Part(layer, V, f, done))
      modifies image
      ensures Within(layer, |V|, t, done + Bps(layer)) && Within(layer, |V|, f, done + Bps(layer))
      ensures image[..] == Written(layer, V, t, Part(layer, V, f, done + Bps(layer)))
    {
      hide *;
      WithinInside(layer, |V|, t, n, done, Bps(layer));
      WithinInside(layer, |V|, f, n, done, Bps(layer));
      MoveUp(layer, V, t, f, done, Bps(layer));
      MoveSector(layer, to, from);
    }

    // One sector more of such a move from its end, of which all after `rest` are moved.
    method MoveLast(layer: Layer, to: nat, from: nat,
                    ghost V: seq<Byte>, ghost t: nat, ghost f: nat, ghost n: nat, ghost rest: nat)
      requires f <= t && rest + Bps(layer) <= n && Within(layer, |V|, t, n) && Within(layer, |V|, f, n)
      requires to * Bps(layer) == t + rest && from * Bps(layer) == f + rest
      requires var m := rest + Bps(layer);
        && Within(layer, |V|, t + m, n - m) && Within(layer, |V|, f + m, n - m)
        && |V| == image.Length && image[..] == Written(layer, V, t + m, Part(layer, V, f + m, n - m))
      modifies image
      ensures Within(layer, |V|, t + rest, n - rest) && Within(layer, |V|, f + rest, n - rest)
      ensures image[..] == Written(layer, V, t + rest, Part(layer, V, f + rest, n - rest))
    {
      hide *;
      ghost var bps := Bps(layer);
      WithinInside(layer, |V|, t, n, rest, n - rest);
      WithinInside(layer, |V|, f, n, rest, n - rest);
      WithinInside(layer, |V|, t, n, rest, bps);
      WithinInside(layer, |V|, f, n, rest, bps);
      MoveDown(layer, V, t + rest, f + rest, bps, n - rest - bps);
      MoveSector(layer, to, from);
    }

    // The loop that moves towards the start, first sector first.
    method MoveSectorsDown(layer: Layer, to: nat, from: nat, count: nat)
      requires to < from && count > 0
      requires Within(layer, image.Length, to * Bps(layer), count * Bps(layer))
      requires Within(layer, image.Length, from * Bps(layer), count * Bps(layer))
      modifies image
      ensures image[..] == Written(layer, old(image[..]), to * Bps(layer),
                                   Part(layer, old(image[..]), from * Bps(layer), count * Bps(layer)))
    {
      hide *;
      ghost var V, n, bps := image[..], count * Bps(layer), Bps(layer);
      ghost var t, f, done: nat := to * bps, from * bps, 0;
      Scale(to, from, bps);
      MoveNothing(layer, V, t, f, n);
      var to_sector_num, from_sector_num, num_sectors := to, from, count;
      while true
        invariant 0 < num_sectors <= count
        invariant done + num_sectors * bps == n
        invariant to_sector_num * bps == t + done && from_sector_num * bps == f + done
        invariant Within(layer, |V|, t, done) && Within(layer, |V|, f, done)
        invariant image[..] == Written(layer, V, t, Part(layer, V, f, done))
        decreases num_sectors
      {
        OneMore(to_sector_num, bps);
        OneMore(from_sector_num, bps);
        OneMore(num_sectors - 1, bps);
        MoveNext(layer, to_sector_num, from_sector_num, V, t, f, n, done);
        to_sector_num, from_sector_num := to_sector_num + 1, from_sector_num + 1;
        num_sectors := num_sectors - 1;
        done := done + bps;
        if num_sectors == 0 {
          break;
        }
      }
    }

    // The loop that moves towards the end, last sector first.
    method MoveSectorsUp(layer: Layer, to: nat, from: nat, count: nat)
      requires from < to && count > 0
      requires Within(layer, image.Length, to * Bps(layer), count * Bps(layer))
      requires Within(layer, image.Length, from * Bps(layer), count * Bps(layer))
      modifies image
      ensures image[..] == Written(layer, old(image[..]), to * Bps(layer),
                                   Part(layer, old(image[..]), from * Bps(layer), count * Bps(layer)))
    {
      hide *;
      ghost var V, n, bps := image[..], count * Bps(layer), Bps(layer);
      ghost var t, f, rest := to * bps, from * bps, n;
      Scale(from, to, bps);
      WithinInside(layer, |V|, t, n, n, 0);
      WithinInside(layer, |V|, f, n, n, 0);
      MoveNothing(layer, V, t + n, f + n, 0);
      Distribute(to, count, bps);
      Distribute(from, count, bps);
      var num_sectors := count;
      while true
        invariant 0 < num_sectors <= count && rest == num_sectors * bps <= n
        invariant (to + num_sectors) * bps == t + rest && (from + num_sectors) * bps == f + rest
        invariant Within(layer, |V|, t + rest, n - rest) && Within(layer, |V|, f + rest, n - rest)
        invariant image[..] == Written(layer, V, t + rest, Part(layer, V, f + rest, n - rest))
        decreases num_sectors
      {
        num_sectors := num_sectors - 1;
        OneMore(num_sectors, bps);
        OneMore(to + num_sectors, bps);
        OneMore(from + num_sectors, bps);
        rest := rest - bps;
        MoveLast(layer, to + num_sectors, from + num_sectors, V, t, f, n, rest);
        if num_sectors == 0 {
          break;
        }
      }
    }

    // relocate_sectors(): the old and the new place may overlap.
    method RelocateSectors(layer: Layer, to: nat, from: nat, count: nat)
      requires Within(layer, image.Length, to * Bps(layer), count * Bps(layer))
      requires Within(layer, image.Length, from * Bps(layer), count * Bps(layer))
      modifies image
      ensures image[..] == Written(layer, old(image[..]), to * Bps(layer),
                                   Part(layer, old(image[..]), from * Bps(layer), count * Bps(layer)))
    {
      hide *;
      ghost var V := image[..];
      if to == from {
        WrittenSame(layer, V, to * Bps(layer), count * Bps(layer));
        return;
      }
      if count == 0 {
        MoveNothing(layer, V, to * Bps(layer), from * Bps(layer), 0);
        return;
      }
      if to < from {
        MoveSectorsDown(layer, to, from, count);
      } else {
        MoveSectorsUp(layer, to, from, count);
      }
    }

    // relocate_bytes()
    method RelocateBytes(layer: Layer, to: nat, from: nat, n: nat)
      requires Within(layer, image.Length, to, n) && Within(layer, image.Length, from, n)
      requires Bps(layer) > 0 && to % Bps(layer) == from % Bps(layer) == n % Bps(layer) == 0
      modifies image
      ensures image[..] == Written(layer, old(image[..]), to, Part(layer, old(image[..]), from, n))
    {
      hide *;
      var bps := Bps(layer);
      Whole(to, bps);
      Whole(from, bps);
      Whole(n, bps);
      RelocateSectors(layer, to / bps, from / bps, n / bps);
    }
  }
}
