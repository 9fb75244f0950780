/**
 The buffer every output filter has before it: what is handed on, piece by piece, is
 what was put in.
 */
module OutputBuffer {
  import opened Bytes

  const BUFFER_SIZE := 8192

  class Output {
    const buffer: array<Byte>
    var position: nat
    // the arguments write_inner() has been called with
    var handed: seq<seq<Byte>>

    ghost predicate Valid()
      reads this, buffer
    {
      buffer.Length == BUFFER_SIZE && position <= BUFFER_SIZE && forall i: nat | i < |handed| :: handed[i] != []
    }

    // All bytes put in so far.
    ghost function Contents(): seq<Byte>
      requires Valid()
      reads this, buffer
    {
      Joined(handed) + buffer[..position]
    }

    constructor ()
      ensures Valid() && fresh(buffer) && Contents() == [] && handed == []
    {
      buffer := new Byte[BUFFER_SIZE];
      position, handed := 0, [];
    }

    method WriteInner(data: seq<Byte>)
      requires data != []
      modifies this`handed
      ensures handed == old(handed) + [data]
    {
      handed := handed + [data];
    }

    method Fputc(c: Byte)
      requires Valid()
      modifies this`position, this`handed, buffer
      ensures Valid() && Contents() == old(Contents()) + [c] && old(handed) <= handed
    {
      if position < BUFFER_SIZE {
        buffer[position] := c;
        position := position + 1;
      } else {
        Overflow(c);
      }
    }

    method Overflow(c: Byte)
      requires Valid()
      modifies this`position, this`handed, buffer
      ensures Valid() && Contents() == old(Contents()) + [c] && old(handed) <= handed
    {
      if position >= BUFFER_SIZE {
        HandOn();
      }
      buffer[position] := c;
      position := position + 1;
    }

    // What is buffered goes on.
    method HandOn()
      requires Valid() && position > 0
      modifies this`position, this`handed
      ensures Valid() && position == 0 && Contents() == old(Contents()) == Joined(handed) && old(handed) <= handed
    {
      JoinedSnoc(handed, buffer[..position]);
      WriteInner(buffer[..position]);
      position := 0;
    }

    method Write(data: seq<Byte>)
      requires Valid()
      modifies this`position, this`handed, buffer
      ensures Valid() && Contents() == old(Contents()) + data && old(handed) <= handed
    {
      if |data| != 0 {
        if position + |data| <= BUFFER_SIZE {
          Store(data);
        } else {
          if position != 0 {
            HandOn();
          }
          if |data| < BUFFER_SIZE {
            Store(data);
          } else {
            JoinedSnoc(handed, data);
            WriteInner(data);
          }
        }
      }
    }

    method Store(data: seq<Byte>)
      requires Valid() && position + |data| <= BUFFER_SIZE
      modifies this`position, buffer
      ensures Valid() && Contents() == old(Contents()) + data
    {
      Bytes.Store(buffer, position, data);
      assert buffer[..position] == old(buffer[..position]);
      assert buffer[position..position + |data|] == data;
      assert buffer[..position + |data|] == buffer[..position] + buffer[position..position + |data|];
      position := position + |data|;
    }

    // Afterwards everything put in has been handed on.
    method Flush()
      requires Valid()
      modifies this`position, this`handed
      ensures Valid() && position == 0 && Contents() == old(Contents()) == Joined(handed) && old(handed) <= handed
    {
      if position > 0 {
        HandOn();
      }
    }
  }
}
