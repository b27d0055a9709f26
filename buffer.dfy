/** The read/write byte buffer of Go's bytes package, as far as the codec uses
    it: writes append at the end, reads consume from the front, and a read
    from an exhausted buffer yields a zero byte and consumes nothing. */
module ByteBuffer {
  import opened Wire

  class Buffer {
    /** The bytes not yet read. */
    var unread: seq<Byte>

    /** A buffer whose unread bytes are init. */
    constructor (init: seq<Byte>)
      ensures unread == init
    {
      unread := init;
    }

    /** Number of unread bytes. */
    function Len(): nat
      reads this
    {
      |unread|
    }

    method ReadByte() returns (c: Byte, eof: bool)
      modifies this
      ensures eof == (old(unread) == [])
      ensures eof ==> c == 0 && unread == []
      ensures !eof ==> c == old(unread)[0] && unread == old(unread)[1..]
    {
      if unread == [] {
        c, eof := 0, true;
      } else {
        c, eof := unread[0], false;
        unread := unread[1..];
      }
    }

    method Write(p: seq<Byte>)
      modifies this
      ensures unread == old(unread) + p
    {
      unread := unread + p;
    }
  }
}
