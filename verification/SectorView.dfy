/**
 What a stack of sector filters shows of an image, and the image that shows given
 bytes: the two are the halves of a lens, so any stack is one flat byte array.
 */
module SectorView {
  import opened Bytes
  import opened SectorMap

  // What a stack over an image shows.
  function View(layer: Layer, image: seq<Byte>): (v: seq<Byte>)
    requires Fits(layer, |image|)
    ensures |v| == Size(layer, |image|)
  {
    match layer
    case Flat(bps) => image[..Size(layer, |image|)]
    case Interleaved(kind, d) => Shuffle(kind, View(d, image))
    case Offset(d, skip) => View(d, image)[skip..skip + Size(layer, |image|)]
  }

  // The image that shows v through the stack, and is otherwise unchanged.
  function Put(layer: Layer, image: seq<Byte>, v: seq<Byte>): (r: seq<Byte>)
    requires Fits(layer, |image|) && |v| == Size(layer, |image|)
    ensures |r| == |image|
  {
    match layer
    case Flat(bps) => Overlay(image, 0, v)
    case Interleaved(kind, d) => Put(d, image, Unshuffle(kind, v))
    case Offset(d, skip) => Put(d, image, Overlay(View(d, image), skip, v))
  }

  // A stack shows exactly what was put into it.
  lemma {:induction false} ViewPut(layer: Layer, image: seq<Byte>, v: seq<Byte>)
    requires Fits(layer, |image|) && |v| == Size(layer, |image|)
    ensures View(layer, Put(layer, image, v)) == v
  {
    match layer
    case Flat(bps) =>
    case Interleaved(kind, d) =>
      ViewPut(d, image, Unshuffle(kind, v));
      ShuffleInverse(kind, v);
    case Offset(d, skip) =>
      ViewPut(d, image, Overlay(View(d, image), skip, v));
      OverlayRead(View(d, image), skip, v);
  }

  // Putting back what a stack shows changes nothing.
  lemma {:induction false} PutView(layer: Layer, image: seq<Byte>)
    requires Fits(layer, |image|)
    ensures Put(layer, image, View(layer, image)) == image
  {
    match layer
    case Flat(bps) =>
    case Interleaved(kind, d) =>
      ShuffleInverse(kind, View(d, image));
      PutView(d, image);
    case Offset(d, skip) =>
      var w := View(d, image);
      assert Overlay(w, skip, View(layer, image)) == w;
      PutView(d, image);
  }

  // The last of two puts wins.
  lemma {:induction false} PutPut(layer: Layer, image: seq<Byte>, v: seq<Byte>, w: seq<Byte>)
    requires Fits(layer, |image|) && |v| == |w| == Size(layer, |image|)
    ensures Put(layer, Put(layer, image, v), w) == Put(layer, image, w)
  {
    match layer
    case Flat(bps) =>
    case Interleaved(kind, d) =>
      PutPut(d, image, Unshuffle(kind, v), Unshuffle(kind, w));
    case Offset(d, skip) =>
      var base := View(d, image);
      ViewPut(d, image, Overlay(base, skip, v));
      assert Overlay(Overlay(base, skip, v), skip, w) == Overlay(base, skip, w);
      PutPut(d, image, Overlay(base, skip, v), Overlay(base, skip, w));
  }

  // The image after writing data at pos through the stack.
  function Written(layer: Layer, image: seq<Byte>, pos: nat, data: seq<Byte>): (r: seq<Byte>)
    requires Within(layer, |image|, pos, |data|)
    ensures |r| == |image|
  {
    Put(layer, image, Overlay(View(layer, image), pos, data))
  }

  lemma ViewWritten(layer: Layer, image: seq<Byte>, pos: nat, data: seq<Byte>)
    requires Within(layer, |image|, pos, |data|)
    ensures View(layer, Written(layer, image, pos, data)) == Overlay(View(layer, image), pos, data)
  {
    ViewPut(layer, image, Overlay(View(layer, image), pos, data));
  }

  lemma WrittenNothing(layer: Layer, image: seq<Byte>, pos: nat)
    requires Within(layer, |image|, pos, 0)
    ensures Written(layer, image, pos, []) == image
  {
    OverlayNothing(View(layer, image), pos);
    PutView(layer, image);
  }

  // Writing two pieces one after the other writes them together.
  lemma WrittenAppend(layer: Layer, image: seq<Byte>, pos: nat, d: seq<Byte>, e: seq<Byte>)
    requires Within(layer, |image|, pos, |d| + |e|)
    ensures Written(layer, Written(layer, image, pos, d), pos + |d|, e) == Written(layer, image, pos, d + e)
  {
    var v := View(layer, image);
    ViewWritten(layer, image, pos, d);
    OverlayAppend(v, pos, d, e);
    PutPut(layer, image, Overlay(v, pos, d), Overlay(v, pos, d + e));
  }

  lemma WrittenPrepend(layer: Layer, image: seq<Byte>, pos: nat, d: seq<Byte>, e: seq<Byte>)
    requires Within(layer, |image|, pos, |d| + |e|)
    ensures Written(layer, Written(layer, image, pos + |d|, e), pos, d) == Written(layer, image, pos, d + e)
  {
    var v := View(layer, image);
    ViewWritten(layer, image, pos + |d|, e);
    OverlayPrepend(v, pos, d, e);
    PutPut(layer, image, Overlay(v, pos + |d|, e), Overlay(v, pos, d + e));
  }

  // Writing back a sector, part of which has been replaced, writes that part.
  lemma WrittenWithin(layer: Layer, image: seq<Byte>, at: nat, n: nat, from: nat, d: seq<Byte>)
    requires Within(layer, |image|, at, n) && from + |d| <= n
    ensures Written(layer, image, at, Overlay(View(layer, image)[at..at + n], from, d))
         == Written(layer, image, at + from, d)
  {
    OverlayWithin(View(layer, image), at, n, from, d);
  }

  // Writing a sector through an interleaved layer writes the mapped sector below.
  lemma WrittenSector(kind: Kind, d: Layer, image: seq<Byte>, sector: nat, data: seq<Byte>)
    requires Fits(Interleaved(kind, d), |image|) && |data| == kind.BytesPerSector()
    requires (sector + 1) * |data| <= Size(d, |image|)
    ensures (Map(kind, sector) + 1) * |data| <= Size(d, |image|)
    ensures Written(d, image, Map(kind, sector) * |data|, data)
         == Written(Interleaved(kind, d), image, sector * |data|, data)
  {
    ShuffleSector(kind, View(d, image), sector, data);
  }

  lemma OffsetLens(d: Layer, skip: nat, image: seq<Byte>, v: seq<Byte>)
    requires Fits(Offset(d, skip), |image|) && |v| == Size(Offset(d, skip), |image|)
    ensures Fits(d, |image|) && skip + |v| <= Size(d, |image|)
    ensures View(Offset(d, skip), image) == View(d, image)[skip..skip + |v|]
    ensures Put(Offset(d, skip), image, v) == Put(d, image, Overlay(View(d, image), skip, v))
  {
  }

  // Writing through an offset layer writes further along below.
  lemma WrittenOffset(d: Layer, skip: nat, image: seq<Byte>, pos: nat, data: seq<Byte>)
    requires Fits(Offset(d, skip), |image|) && pos + |data| <= Size(Offset(d, skip), |image|)
    ensures Fits(d, |image|) && skip + pos + |data| <= Size(d, |image|)
    ensures Written(d, image, skip + pos, data) == Written(Offset(d, skip), image, pos, data)
  {
    hide Fits, Size, View, Put, Overlay;
    var w := Overlay(View(Offset(d, skip), image), pos, data);
    OffsetLens(d, skip, image, w);
    OverlayWithin(View(d, image), skip, |w|, pos, data);
  }
}
