/** The TSQ_APPEND_FIX queue that collects the bytes of one slice in a fixed buffer. */
module AppendQueue {
  import opened Bytes

  class AppendBuffer {
    const data: array<Byte>
    var len: nat
    var pushedBytes: nat

    ghost predicate Valid()
      reads this
    {
      len <= data.Length && pushedBytes == len
    }

    /** What LinkGetQueueBuffer exposes. */
    function Contents(): seq<Byte>
      requires Valid()
      reads this, data
    {
      data[..len]
    }

    constructor (capacity: nat)
      ensures Valid() && fresh(data) && data.Length == capacity && Contents() == []
    {
      data := new Byte[capacity];
      len, pushedBytes := 0, 0;
    }

    /** All or nothing: a packet that does not fit is refused with zero. */
    method Push(p: seq<Byte>) returns (ret: int)
      requires Valid()
      modifies this, data
      ensures Valid()
      ensures old(len) + |p| > data.Length ==> ret == 0 && Contents() == old(Contents())
      ensures old(len) + |p| <= data.Length ==> ret == |p| && Contents() == old(Contents()) + p
    {
      if |p| + len > data.Length {
        return 0;
      }
      Memcpy(data, len, p);
      pushedBytes := pushedBytes + |p|;
      len := len + |p|;
      ret := |p|;
    }
  }
}
