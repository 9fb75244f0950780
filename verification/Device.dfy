/**
 An image seen through a stack of sector filters, as the directory uses it: flat bytes.
 */
module Devices {
  import opened Arithmetic
  import opened Bytes
  import opened SectorMap
  import opened SectorView
  import opened SectorIo

  class Device {
    const disk: Disk
    const layer: Layer

    constructor (d: Disk, l: Layer)
      requires Fits(l, d.image.Length)
      ensures disk == d && layer == l
    {
      disk, layer := d, l;
    }

    predicate Ready() {
      Fits(layer, disk.image.Length)
    }

    // size_in_bytes()
    function Length(): nat {
      Size(layer, disk.image.Length)
    }

    ghost function Contents(): (v: seq<Byte>)
      requires Ready()
      reads disk.image
      ensures |v| == Length()
    {
      View(layer, disk.image[..])
    }

    method Read(pos: nat, n: nat) returns (data: seq<Byte>)
      requires Ready() && pos + n <= Length()
      ensures data == Contents()[pos..pos + n]
    {
      hide Fits, Size, View;
      data := disk.Read(layer, pos, n);
    }

    method Write(pos: nat, data: seq<Byte>)
      requires Ready() && pos + |data| <= Length()
      modifies disk.image
      ensures Contents() == Overlay(old(Contents()), pos, data)
    {
      hide Fits, Size, View, Written, Overlay;
      ViewWritten(layer, disk.image[..], pos, data);
      disk.Write(layer, pos, data);
    }

    method WriteZero(pos: nat, n: nat)
      requires Ready() && pos + n <= Length()
      modifies disk.image
      ensures Contents() == Overlay(old(Contents()), pos, Zeros(n))
    {
      hide Fits, Size, View, Written, Overlay;
      ViewWritten(layer, disk.image[..], pos, Zeros(n));
      disk.WriteZero(layer, pos, n);
    }

    // Every sector size divides a block.
    method RelocateBlocks(to: nat, from: nat, n: nat)
      requires Ready() && (to + n) * 512 <= Length() && (from + n) * 512 <= Length()
      modifies disk.image
      ensures Contents() == Overlay(old(Contents()), to * 512, old(Contents())[from * 512..from * 512 + n * 512])
    {
      hide Fits, Size, View, Written, Overlay, Bps;
      SizeMultiple(layer, disk.image.Length);
      BlockMultiple(to, Bps(layer));
      BlockMultiple(from, Bps(layer));
      BlockMultiple(n, Bps(layer));
      ViewWritten(layer, disk.image[..], to * 512, Part(layer, disk.image[..], from * 512, n * 512));
      disk.RelocateBytes(layer, to * 512, from * 512, n * 512);
    }
  }

  lemma BlockMultiple(b: nat, bps: nat)
    requires bps in {64, 128, 256, 512}
    ensures b * 512 % bps == 0
  {
    DivMod(b * (512 / bps), 0, bps);
    assert bps == 64 ==> b * 512 == b * 8 * 64;
    assert bps == 128 ==> b * 512 == b * 4 * 128;
    assert bps == 256 ==> b * 512 == b * 2 * 256;
    assert bps == 512 ==> b * 512 == b * 1 * 512;
  }
}
