/** A TCP byte stream as its reader sees it: chunks that arrive one after another, then the end. */
module ByteStreams {
  import opened Bytes
  import opened Results

  function Flatten(chunks: seq<seq<byte>>): seq<byte> {
    if chunks == [] then [] else chunks[0] + Flatten(chunks[1..])
  }

  /** `chunks` is one way to cut these bytes into nonempty pieces. */
  ghost predicate IsCutOf(chunks: seq<seq<byte>>, bytes: seq<byte>) {
    Flatten(chunks) == bytes && forall c :: c in chunks ==> c != []
  }

  class NetworkStream {
    /** What has arrived, or will arrive, and has not been read. */
    var chunks: seq<seq<byte>>

    constructor ()
      ensures chunks == [] && Valid()
    {
      chunks := [];
    }

    ghost predicate Valid()
      reads this
    {
      forall c :: c in chunks ==> c != []
    }

    function Unread(): seq<byte>
      reads this
    {
      Flatten(chunks)
    }

    /** The peer's bytes arrive, cut in any way. */
    method Arrive(more: seq<seq<byte>>)
      requires Valid() && forall c :: c in more ==> c != []
      modifies this
      ensures Valid() && Unread() == old(Unread()) + Flatten(more)
    {
      FlattenAppend(chunks, more);
      chunks := chunks + more;
    }

    /** One read: at least one byte if any is left, at most `count`, from the front chunk only. */
    method Read(count: nat) returns (bytes: seq<byte>)
      requires Valid() && count > 0
      modifies this
      ensures Valid()
      ensures |bytes| <= count && bytes + Unread() == old(Unread())
      ensures bytes == [] <==> old(Unread()) == []
    {
      if chunks == [] {
        return [];
      }
      var front := chunks[0];
      assert front in chunks && forall c :: c in chunks[1..] ==> c in chunks;
      if |front| <= count {
        bytes := front;
        chunks := chunks[1..];
      } else {
        bytes := front[..count];
        chunks := [front[count..]] + chunks[1..];
        assert chunks[0] == front[count..] && chunks[1..] == old(chunks)[1..];
        assert front[..count] + (front[count..] + Flatten(chunks[1..])) == front + Flatten(chunks[1..]);
      }
    }

    /** The `ReadExactAsync` loop of both ends: all `count` bytes, or nothing if the stream ends first. */
    method ReadExact(count: nat) returns (r: Option<seq<byte>>)
      requires Valid()
      modifies this
      ensures Valid()
      ensures |old(Unread())| >= count ==> r == Some(old(Unread())[..count]) && Unread() == old(Unread())[count..]
      ensures |old(Unread())| < count ==> r == None && Unread() == []
    {
      var buffer: seq<byte> := [];
      while |buffer| < count
        invariant Valid()
        invariant |buffer| <= count && buffer + Unread() == old(Unread())
        decreases count - |buffer|
      {
        var bytes := Read(count - |buffer|);
        if |bytes| == 0 {
          return None;
        }
        buffer := buffer + bytes;
      }
      r := Some(buffer);
    }
  }

  lemma {:induction false} FlattenAppend(a: seq<seq<byte>>, b: seq<seq<byte>>)
    ensures Flatten(a + b) == Flatten(a) + Flatten(b)
  {
    if a == [] {
      assert a + b == b;
    } else {
      assert (a + b)[1..] == a[1..] + b;
      FlattenAppend(a[1..], b);
    }
  }
}
