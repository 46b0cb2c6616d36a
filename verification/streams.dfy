/**
 * The two byte-stream collaborators of the codec.
 *
 * A Reader behaves as a `bytes.Buffer` does under `io.Reader`: a read of n bytes
 * returns min(n, remaining) bytes with no error while bytes remain, and no bytes
 * together with an error once they are gone. For a `bytes.Buffer` that error is
 * `io.EOF`; a Reader may instead end in a failure, which is how the model reaches
 * the codec's read-error paths.
 *
 * A Writer appends what it is given, up to an optional amount of room; a write
 * that does not fit is cut short and reports an error, as an `io.Writer` must.
 */
module Streams {
  import opened Common

  /** The part of s that a sink with the given room accepts. */
  function Clip(s: seq<byte>, room: Option<nat>): (r: seq<byte>)
    ensures r <= s
    ensures room.None? ==> r == s
    ensures Fits(room, |s|) ==> r == s
    ensures room.Some? ==> |r| == Min(room.value, |s|)
  {
    if room.None? then s else s[..Min(room.value, |s|)]
  }

  /** True when n bytes fit in the room left. */
  predicate Fits(room: Option<nat>, n: nat)
  {
    room.None? || n <= room.value
  }

  /** The room left after n bytes were offered. */
  function Less(room: Option<nat>, n: nat): (r: Option<nat>)
  {
    if room.None? then None else Some(if n <= room.value then room.value - n else 0)
  }

  /**
   * Offering a and then b to a sink leaves the same bytes and the same room as
   * offering a + b at once: a sink that fails keeps failing.
   */
  lemma ClipAppend(a: seq<byte>, b: seq<byte>, room: Option<nat>)
    ensures Clip(a, room) + Clip(b, Less(room, |a|)) == Clip(a + b, room)
    ensures Less(Less(room, |a|), |b|) == Less(room, |a| + |b|)
    ensures Fits(room, |a| + |b|) <==> Fits(room, |a|) && Fits(Less(room, |a|), |b|)
  {
    if room.Some? {
      var r := room.value;
      if |a| <= r {
        assert (a + b)[..Min(r, |a| + |b|)] == a + b[..Min(r - |a|, |b|)];
      } else {
        assert (a + b)[..r] == a[..r];
      }
    }
  }

  /** Offering nothing leaves a sink as it was. */
  lemma WriteNothing(before: seq<byte>, y: seq<byte>, room: Option<nat>)
    requires y == []
    ensures before + Clip(y, room) == before && Less(room, |y|) == room
  {
    assert Clip(y, room) == [];
  }

  /**
   * When the room runs out inside b, offered after a, the sink ends up holding
   * the first room bytes of any whole that starts with a + b, and has no room left.
   */
  lemma FillUp(before: seq<byte>, a: seq<byte>, b: seq<byte>, whole: seq<byte>, room: Option<nat>)
    requires room.Some? && |a| <= room.value < |a| + |b| <= |whole|
    requires whole[..|a| + |b|] == a + b
    ensures before + a + Clip(b, Less(room, |a|)) == before + whole[..room.value]
    ensures Less(Less(room, |a|), |b|) == Some(0)
  {
    var k := room.value - |a|;
    assert Clip(b, Less(room, |a|)) == b[..k];
    assert whole[..room.value] == (a + b)[..room.value] == a + b[..k];
    AppendAssoc(before, a, b[..k]);
  }

  class Reader {
    /** The bytes not read yet. */
    var data: seq<byte>
    /** What a read reports once data is exhausted: io.EOF for a bytes.Buffer. */
    const end: Error

    constructor (data: seq<byte>, end: Error)
      ensures this.data == data && this.end == end
    {
      this.data := data;
      this.end := end;
    }

    /** io.Reader.Read into p, with bytes.Buffer semantics. */
    method Read(p: array<byte>) returns (n: nat, err: Option<Error>)
      modifies this, p
      ensures n == Min(p.Length, |old(data)|)
      ensures p[..n] == old(data)[..n] && p[n..] == old(p[n..])
      ensures data == old(data)[n..]
      ensures err == if |old(data)| == 0 && p.Length > 0 then Some(end) else None
    {
      if |data| == 0 {
        n := 0;
        err := if p.Length == 0 then None else Some(end);
        return;
      }
      n := Min(p.Length, |data|);
      forall i | 0 <= i < n {
        p[i] := data[i];
      }
      data := data[n..];
      err := None;
    }
  }

  class Writer {
    /** Everything the sink has accepted. */
    var written: seq<byte>
    /** How many more bytes it accepts; None for a bytes.Buffer, which takes everything. */
    var room: Option<nat>

    constructor (room: Option<nat>)
      ensures written == [] && this.room == room
    {
      written := [];
      this.room := room;
    }

    /** io.Writer.Write: takes what fits and reports an error when that is not all of p. */
    method Write(p: seq<byte>) returns (n: nat, err: Option<Error>)
      modifies this
      ensures written == old(written) + Clip(p, old(room))
      ensures room == Less(old(room), |p|)
      ensures n == |Clip(p, old(room))| && (n < |p| <==> err.Some?)
      ensures err == if Fits(old(room), |p|) then None else Some(WriteFailed)
    {
      var taken := Clip(p, room);
      written := written + taken;
      room := Less(room, |p|);
      n := |taken|;
      err := if n == |p| then None else Some(WriteFailed);
    }
  }
}
