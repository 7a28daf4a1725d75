/** A stream of octets, written at its end and read from a position. */
module Streams {
  import opened Octets

  const END := -1

  class OctetStream {
    var data: seq<Octet>
    var position: nat

    ghost predicate Valid()
      reads this
    {
      position <= |data|
    }

    /** What is left to read. */
    ghost function Rest(): seq<Octet>
      requires Valid()
      reads this
    {
      data[position..]
    }

    constructor ()
      ensures Valid() && data == [] && position == 0
    {
      data, position := [], 0;
    }

    method Put(o: Octet)
      requires Valid()
      modifies this
      ensures Valid() && data == old(data) + [o] && position == old(position)
    {
      data := data + [o];
    }

    method Write(s: seq<Octet>)
      requires Valid()
      modifies this
      ensures Valid() && data == old(data) + s && position == old(position)
    {
      data := data + s;
    }

    /** The next octet, or END. */
    method Get() returns (o: int)
      requires Valid()
      modifies this
      ensures Valid() && data == old(data)
      ensures o == Next(old(Rest())) && Rest() == After(old(Rest()))
    {
      if position < |data| {
        o := data[position];
        position := position + 1;
      } else {
        o := END;
      }
    }

    method Peek() returns (o: int)
      requires Valid()
      ensures o == Next(Rest())
    {
      o := if position < |data| then data[position] else END;
    }
  }

  function Next(s: seq<Octet>): int {
    if s == [] then END else s[0]
  }

  function After(s: seq<Octet>): seq<Octet> {
    if s == [] then [] else s[1..]
  }

  /** What is left of a read when it is stored in an octet. */
  function AsOctet(o: int): Octet
    requires -1 <= o < 256
  {
    if o == END then 255 else o
  }
}
