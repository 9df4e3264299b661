/** The bounded string writers of `rex/src/log.rs` and `rex/src/map.rs`, and the message of
    the panic handler in `rex/src/panic.rs`. */

module BoundedWriter {
  import opened Bytes

  /** The bytes of an ASCII text. */
  function Ascii(text: string): (b: seq<byte>)
    ensures |b| == |text|
  {
    seq(|text|, i requires 0 <= i < |text| => text[i] as int % 128)
  }

  const FALLBACK: seq<byte> := Ascii("unknown rust panic")

  datatype WriteResult = Ok | Err | Panic

  function Concat(pieces: seq<seq<byte>>): seq<byte> {
    if pieces == [] then [] else Concat(pieces[..|pieces| - 1]) + pieces[|pieces| - 1]
  }

  /** Those of the first `n` strings that fit when each is offered in turn to `room` free bytes. */
  function Fitting(room: nat, pieces: seq<seq<byte>>, n: nat): (a: seq<seq<byte>>)
    requires n <= |pieces|
    ensures |Concat(a)| <= room
  {
    if n == 0 then []
    else
      var a, p := Fitting(room, pieces, n - 1), pieces[n - 1];
      if |Concat(a)| + |p| <= room then ConcatSnoc(a, p); a + [p] else a
  }

  lemma ConcatSnoc(a: seq<seq<byte>>, p: seq<byte>)
    ensures Concat(a + [p]) == Concat(a) + p
  {
    assert (a + [p])[..|a|] == a;
  }

  class TextBuffer {
    const buf: array<byte>
    var off: nat

    ghost predicate Valid()
      reads this
    {
      off <= buf.Length && (buf.Length > 0 ==> off < buf.Length)
    }

    ghost function Text(): seq<byte>
      requires Valid()
      reads this, buf
    {
      buf[..off]
    }

    /** The text is followed by a NUL inside the buffer. */
    ghost predicate Terminated()
      reads this, buf
    {
      off < buf.Length && buf[off] == 0
    }

    constructor (storage: array<byte>)
      ensures Valid() && buf == storage && off == 0
    {
      buf, off := storage, 0;
    }

    method Reset()
      modifies `off
      ensures off == 0 && Valid()
    {
      off := 0;
    }

    /** `LogBuf::write_str`, on the nonempty kernel buffer. */
    method WriteStr(s: seq<byte>) returns (ok: bool)
      requires Valid() && buf.Length > 0
      modifies this, buf
      ensures Valid()
      ensures ok == (|s| <= buf.Length - 1 - old(off))
      ensures ok ==> Text() == old(Text()) + s && Terminated()
      ensures !ok ==> off == old(off) && buf[..] == old(buf[..])
    {
      var available := buf.Length - off - 1;
      if |s| > available {
        return false;
      }
      Store(s);
      return true;
    }

    /** The copy, the NUL and the new offset. */
    method Store(s: seq<byte>)
      requires Valid() && off + |s| < buf.Length
      modifies this, buf
      ensures Valid() && Text() == old(Text()) + s && Terminated()
    {
      ghost var before := buf[..off];
      var end := off + |s|;
      var i := 0;
      while i < |s|
        invariant i <= |s| && off == old(off)
        invariant buf[..off] == before
        invariant buf[off..off + i] == s[..i]
      {
        buf[off + i] := s[i];
        i := i + 1;
        assert buf[off..off + i] == s[..i];
      }
      assert buf[..end] == before + s;
      buf[end] := 0;
      assert buf[..end] == before + s;
      off := end;
    }

    /** `RexRingBufEntry::write_str`. The subtraction saturates, so that an empty string is
        accepted into an empty reservation, whose terminator then lies out of range. */
    method WriteRingStr(s: seq<byte>) returns (r: WriteResult)
      requires Valid()
      modifies this, buf
      ensures Valid()
      ensures r == Panic <==> buf.Length == 0 && s == []
      ensures buf.Length > 0 ==> r == if |s| <= buf.Length - 1 - old(off) then Ok else Err
      ensures r == Ok ==> Text() == old(Text()) + s && Terminated()
      ensures r != Ok ==> off == old(off) && buf[..] == old(buf[..])
    {
      var available := if buf.Length > off + 1 then buf.Length - (off + 1) else 0;
      if |s| > available {
        return Err;
      }
      if off + |s| >= buf.Length {
        return Panic;
      }
      Store(s);
      return Ok;
    }

    /** The buffer after the first `n` strings were offered, from a state with `room` left. */
    ghost predicate HoldsFitting(start: seq<byte>, before: seq<byte>, room: nat, pieces: seq<seq<byte>>, n: nat)
      requires Valid() && n <= |pieces|
      reads this, buf
    {
      && Text() == start + Concat(Fitting(room, pieces, n))
      && (if Fitting(room, pieces, n) == [] then buf[..] == before else Terminated())
    }

    /** Any sequence of writes, each accepted or rejected by itself: the buffer holds exactly
        the accepted strings, one behind the other. */
    method WriteEach(pieces: seq<seq<byte>>)
      requires Valid() && buf.Length > 0
      modifies this, buf
      ensures Valid()
      ensures HoldsFitting(old(Text()), old(buf[..]), buf.Length - 1 - old(off), pieces, |pieces|)
    {
      ghost var start, before, room := Text(), buf[..], buf.Length - 1 - off;
      var i := 0;
      while i < |pieces|
        invariant i <= |pieces| && Valid() && HoldsFitting(start, before, room, pieces, i)
      {
        Offer(start, before, room, pieces, i);
        i := i + 1;
      }
    }

    method Offer(ghost start: seq<byte>, ghost before: seq<byte>, ghost room: nat, pieces: seq<seq<byte>>, i: nat)
      requires Valid() && i < |pieces| && buf.Length - 1 == |start| + room
      requires HoldsFitting(start, before, room, pieces, i)
      modifies this, buf
      ensures Valid() && HoldsFitting(start, before, room, pieces, i + 1)
    {
      ghost var fitting := Fitting(room, pieces, i);
      ConcatSnoc(fitting, pieces[i]);
      assert |Text()| == |start| + |Concat(fitting)|;
      var ok := WriteStr(pieces[i]);
      assert ok == (|Concat(fitting)| + |pieces[i]| <= room);
    }

    /** `write!`: the pieces of a formatted text up to the first that does not fit. */
    method WriteFormatted(pieces: seq<seq<byte>>) returns (ok: bool)
      requires Valid() && buf.Length > 0
      modifies this, buf
      ensures Valid()
      ensures ok == (|Concat(pieces)| <= buf.Length - 1 - old(off))
      ensures ok ==> Text() == old(Text()) + Concat(pieces) && (pieces != [] ==> Terminated())
    {
      ghost var start, room := Text(), buf.Length - 1 - off;
      var i := 0;
      while i < |pieces|
        invariant i <= |pieces| && Valid()
        invariant Text() == start + Concat(pieces[..i])
        invariant i > 0 ==> Terminated()
      {
        assert pieces[..i + 1] == pieces[..i] + [pieces[i]];
        ConcatSnoc(pieces[..i], pieces[i]);
        var fits := WriteStr(pieces[i]);
        if !fits {
          ConcatGrows(pieces, i + 1);
          return false;
        }
        i := i + 1;
      }
      assert pieces[..i] == pieces;
      return true;
    }

    /** The message of the panic handler: all of the formatted text, or all of the fallback. */
    method PanicMessage(pieces: seq<seq<byte>>)
      requires buf.Length >= 19
      modifies this, buf
      ensures Valid() && (pieces != [] ==> Terminated())
      ensures Text() == if |Concat(pieces)| < buf.Length then Concat(pieces) else Ascii("unknown rust panic")
    {
      Reset();
      var ok := WriteFormatted(pieces);
      if !ok {
        Reset();
        var _ := WriteStr(FALLBACK);
      }
    }
  }

  lemma {:induction false} ConcatGrows(pieces: seq<seq<byte>>, n: nat)
    requires n <= |pieces|
    ensures |Concat(pieces[..n])| <= |Concat(pieces)|
  {
    if n == |pieces| {
      assert pieces[..n] == pieces;
    } else {
      var init := pieces[..|pieces| - 1];
      ConcatGrows(init, n);
      assert init[..n] == pieces[..n];
    }
  }
}
