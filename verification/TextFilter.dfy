/**
 The text filters as a program uses them: bytes and strings are put into the buffer of
 an output, and the encoder or decoder is given whatever the buffer hands on.
 */
module TextFilter {
  import opened Bytes
  import opened OutputBuffer
  import opened TextFormat
  import opened TextRoundTrip
  import E = TextEncode
  import D = TextDecode

  datatype Call = Fputc(c: Byte) | Write(data: seq<Byte>) {
    function Data(): seq<Byte> {
      match this
      case Fputc(c) => [c]
      case Write(data) => data
    }
  }

  // All bytes the calls put in.
  function Put(calls: seq<Call>): seq<Byte> {
    if calls == [] then [] else Put(Front(calls)) + Last(calls).Data()
  }

  method Accept(o: Output, call: Call)
    requires o.Valid()
    modifies o`position, o`handed, o.buffer
    ensures o.Valid() && o.Contents() == old(o.Contents()) + call.Data() && old(o.handed) <= o.handed
  {
    match call
    case Fputc(c) => o.Fputc(c);
    case Write(data) => o.Write(data);
  }

  // The pieces handed on since the first `done` of them.
  method EncodeOn(o: Output, e: E.TextEncoder, done: nat)
    requires done <= |o.handed| && e.address < E.BLOCK
    requires e.Now() == E.Feed(E.Start(), Joined(o.handed[..done]), e.useDle, e.nulGuarantee)
    modifies e
    ensures e.address < E.BLOCK
    ensures e.Now() == E.Feed(E.Start(), Joined(o.handed), e.useDle, e.nulGuarantee)
  {
    hide E.Feed, Joined;
    for n := done to |o.handed|
      invariant e.address < E.BLOCK
      invariant e.Now() == E.Feed(E.Start(), Joined(o.handed[..n]), e.useDle, e.nulGuarantee)
    {
      JoinedSnoc(o.handed[..n], o.handed[n]);
      E.FeedAppend(E.Start(), Joined(o.handed[..n]), o.handed[n], e.useDle, e.nulGuarantee);
      assert o.handed[..n + 1] == o.handed[..n] + [o.handed[n]];
      e.WriteInner(o.handed[n]);
    }
    assert o.handed[..|o.handed|] == o.handed;
  }

  // The file an encoder makes of what is put into it depends on no buffering.
  method EncodeCalls(calls: seq<Call>, dle: bool, nul: bool) returns (out: seq<Byte>)
    ensures out == E.Encode(Put(calls), dle, nul)
  {
    hide E.Feed, Joined;
    var o := new Output();
    var e := new E.TextEncoder(dle, nul);
    EncodeNothing(dle, nul);
    for n := 0 to |calls|
      invariant o.Valid() && fresh(o) && fresh(o.buffer) && o.Contents() == Put(calls[..n])
      invariant e.address < E.BLOCK && e.Now() == E.Feed(E.Start(), Joined(o.handed), dle, nul)
    {
      assert Front(calls[..n + 1]) == calls[..n] && Last(calls[..n + 1]) == calls[n];
      var done := |o.handed|;
      ghost var before := o.handed;
      Accept(o, calls[n]);
      assert o.handed[..done] == before;
      EncodeOn(o, e, done);
    }
    assert calls[..|calls|] == calls;
    var done := |o.handed|;
    ghost var before := o.handed;
    o.Flush();
    assert o.handed[..done] == before;
    EncodeOn(o, e, done);
    e.Close();
    out := e.out;
  }

  lemma EncodeNothing(dle: bool, nul: bool)
    ensures E.Feed(E.Start(), Joined([]), dle, nul) == E.Start()
  {
  }

  lemma {:induction false} ChunksSnoc(f: D.Filter, pieces: seq<seq<Byte>>, piece: seq<Byte>, tabs: bool)
    ensures D.Chunks(f, pieces + [piece], tabs) == D.Chunk(D.Chunks(f, pieces, tabs), piece, tabs)
    decreases |pieces|
  {
    hide D.Chunk;
    if pieces == [] {
      assert D.Chunks(D.Chunk(f, piece, tabs), [piece][1..], tabs) == D.Chunk(f, piece, tabs);
    } else {
      ChunksSnoc(D.Chunk(f, pieces[0], tabs), pieces[1..], piece, tabs);
      assert (pieces + [piece])[1..] == pieces[1..] + [piece];
    }
  }

  method DecodeOn(o: Output, d: D.TextDecoder, done: nat)
    requires done <= |o.handed| && d.Now() == D.Chunks(D.FRESH, o.handed[..done], d.useTabs)
    modifies d
    ensures d.Now() == D.Chunks(D.FRESH, o.handed, d.useTabs)
  {
    hide D.Chunk, D.Chunks;
    for n := done to |o.handed|
      invariant d.Now() == D.Chunks(D.FRESH, o.handed[..n], d.useTabs)
    {
      ChunksSnoc(D.FRESH, o.handed[..n], o.handed[n], d.useTabs);
      assert o.handed[..n + 1] == o.handed[..n] + [o.handed[n]];
      d.WriteInner(o.handed[n]);
    }
    assert o.handed[..|o.handed|] == o.handed;
  }

  // However an encoded file is read and put into a decoder, the text comes back in
  // its normal form; with tabs on, once they are expanded.
  method DecodeCalls(calls: seq<Call>, tabs: bool) returns (out: seq<Byte>)
    ensures forall s, dle, nul :: Clean(s) && LinesFit(s, dle, nul) && Put(calls) == E.Encode(s, dle, nul) ==>
      if tabs then Expanded(out) == Normal(s) else out == Normal(s)
  {
    hide D.Chunk, D.Chunks, Joined, E.Encode, Clean, LinesFit, Normal, Expanded;
    var o := new Output();
    var d := new D.TextDecoder(tabs);
    DecodeNothing(tabs);
    for n := 0 to |calls|
      invariant o.Valid() && fresh(o) && fresh(o.buffer) && o.Contents() == Put(calls[..n])
      invariant d.Now() == D.Chunks(D.FRESH, o.handed, tabs)
    {
      assert Front(calls[..n + 1]) == calls[..n] && Last(calls[..n + 1]) == calls[n];
      var done := |o.handed|;
      ghost var before := o.handed;
      Accept(o, calls[n]);
      assert o.handed[..done] == before;
      DecodeOn(o, d, done);
    }
    assert calls[..|calls|] == calls;
    var done := |o.handed|;
    ghost var before := o.handed;
    o.Flush();
    assert o.handed[..done] == before;
    DecodeOn(o, d, done);
    out := d.out;
    forall s, dle, nul | Clean(s) && LinesFit(s, dle, nul) && Put(calls) == E.Encode(s, dle, nul)
      ensures if tabs then Expanded(out) == Normal(s) else out == Normal(s)
    {
      if tabs {
        RoundTripWithTabs(s, dle, nul, o.handed);
      } else {
        RoundTrip(s, dle, nul, o.handed);
      }
    }
  }

  lemma DecodeNothing(tabs: bool)
    ensures D.Chunks(D.FRESH, [], tabs) == D.FRESH
  {
  }

  lemma PutOne(data: seq<Byte>)
    ensures Put([Write(data)]) == data
  {
    assert Front([Write(data)]) == [];
  }

  // Writing a text file and reading it again, both through their buffers.
  method ThereAndBack(calls: seq<Call>, dle: bool, nul: bool) returns (back: seq<Byte>)
    requires Clean(Put(calls)) && LinesFit(Put(calls), dle, nul)
    ensures back == Normal(Put(calls))
  {
    hide Clean, LinesFit, Normal, E.Encode;
    var file := EncodeCalls(calls, dle, nul);
    PutOne(file);
    back := DecodeCalls([Write(file)], false);
  }
}
