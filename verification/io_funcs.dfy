/** karm-io/funcs.h: the generic helpers built on readers, writers and seekers.

    The copy loops of the source may run forever on a reader that keeps
    returning nothing, so each loop here takes a `fuel` bound on its number of
    rounds and answers `None` when that bound runs out first. */
module IoFuncs {
  import opened Base
  import opened Slices
  import opened IoImpls

  /** Size of the staging buffer of the copy loops. */
  const CHUNK: nat := 4096

  /* --- Read, write and seek helpers --------------------------------------- */

  /** `pread`: seeks, then reads; a failed seek is the result. */
  function Pread<S>(read: ReadFn<S>, seek: SeekFn<S>, s: S, n: nat, to: Seek): (r: (S, Res<seq<Byte>>))
  {
    var (s1, pos) := seek(s, to);
    if pos.Err? then (s1, Err(pos.error)) else read(s1, n)
  }

  /** `pwrite`: seeks, then writes; a failed seek is the result. */
  function Pwrite<W>(write: WriteFn<W>, seek: SeekFn<W>, w: W, bytes: seq<Byte>, to: Seek): (r: (W, Res<nat>))
  {
    var (w1, pos) := seek(w, to);
    if pos.Err? then (w1, Err(pos.error)) else write(w1, bytes)
  }

  /** `pread` on a `BufReader` from an absolute position inside the buffer
      reads from that position. */
  lemma PreadBufReader(c: BufCursor, n: nat, p: U64)
    requires p <= |c.buf|
    ensures Pread(BufRead, BufSeek, c, n, Seek(FromBegin, p)) == BufRead(Cursor(c.buf, p), n)
  {
  }

  /** `pwrite` on a `BufWriter` from an absolute position inside the buffer
      writes from that position. */
  lemma PwriteBufWriter(c: BufCursor, bytes: seq<Byte>, p: U64)
    requires p <= |c.buf|
    ensures Pwrite(BufWrite, BufSeek, c, bytes, Seek(FromBegin, p)) == BufWrite(Cursor(c.buf, p), bytes)
  {
  }

  /** `getByte`: reads into a one-byte local. The local is not initialised, so
      when the read produces nothing the result is whatever it held: `garbage`. */
  function GetByte<S>(read: ReadFn<S>, s: S, garbage: Byte): (r: (S, Res<Byte>))
    ensures r.0 == read(s, 1).0
    ensures read(s, 1).1.Err? ==> r.1 == Err(read(s, 1).1.error)
    ensures read(s, 1).1.Ok? && |read(s, 1).1.value| > 0 ==> r.1 == Ok(read(s, 1).1.value[0])
    ensures read(s, 1).1 == Ok([]) ==> r.1 == Ok(garbage)
  {
    var (s1, res) := read(s, 1);
    if res.Err? then (s1, Err(res.error))
    else (s1, Ok(if |res.value| > 0 then res.value[0] else garbage))
  }

  /** `getByte` on a `BufReader`: the first byte, then, because of the window
      `BufReader::read` computes, only the uninitialised local. */
  lemma GetByteBufReader(c: BufCursor, garbage: Byte)
    requires c.pos < |c.buf|
    ensures c.pos == 0 ==> GetByte(BufRead, c, garbage) == (Cursor(c.buf, 1), Ok(c.buf[0]))
    ensures c.pos > 0 ==> GetByte(BufRead, c, garbage) == (c, Ok(garbage))
    ensures GetByte(BufReadIntended, c, garbage) == (Cursor(c.buf, c.pos + 1), Ok(c.buf[c.pos]))
  {
    assert c.buf[c.pos..c.pos + 1] == [c.buf[c.pos]];
    assert Min(c.pos + 1, |c.buf|) == c.pos + 1;
  }

  /** `putByte`: writes a one-byte slice. */
  function PutByte<W>(write: WriteFn<W>, w: W, b: Byte): (r: (W, Res<nat>))
  {
    write(w, [b])
  }

  /** `putByte` on a `BufferWriter` appends the byte. */
  lemma PutByteBufferWriter(w: seq<Byte>, b: Byte)
    ensures PutByte(BufferWrite, w, b) == (w + [b], Ok(1))
  {
  }

  /** `tell`: a seek by 0 from the current position. */
  function Tell<S>(seek: SeekFn<S>, s: S): (r: (S, Res<U64>))
  {
    seek(s, Seek(FromCurrent, 0))
  }

  /** `size`: remembers the position, seeks to the end, seeks back and
      reports the end. */
  function Size<S>(seek: SeekFn<S>, s: S): (r: (S, Res<U64>))
  {
    var (s1, current) := Tell(seek, s);
    if current.Err? then (s1, current)
    else
      var (s2, end) := seek(s1, Seek(FromEnd, 0));
      if end.Err? then (s2, end)
      else
        var (s3, back) := seek(s2, Seek(FromBegin, current.value));
        if back.Err? then (s3, back) else (s3, end)
  }

  /** On a `BufReader` or `BufWriter`, `tell` reports the position and moves nothing. */
  lemma TellBufCursor(c: BufCursor)
    ensures Tell(BufSeek, c) == (c, Ok(c.pos))
  {
  }

  /** On a `BufReader` or `BufWriter`, `size` reports the buffer length and
      leaves the position where it was. */
  lemma SizeBufCursor(c: BufCursor)
    ensures Size(BufSeek, c) == (c, Ok(|c.buf|))
  {
    TellBufCursor(c);
    var end := BufSeek(c, Seek(FromEnd, 0));
    assert end == (Cursor(c.buf, |c.buf|), Ok(|c.buf|));
    assert BufSeek(end.0, Seek(FromBegin, c.pos)).0 == c;
  }

  /** `skip` on a seeker: a seek by `n` from the current position. */
  function SkipSeek<S>(seek: SeekFn<S>, s: S, n: U64): (r: (S, Res<U64>))
  {
    seek(s, Seek(FromCurrent, n))
  }

  /** Skipping on a `BufReader` or `BufWriter` stops at the end of the buffer
      (a target past `usize` would wrap around instead). */
  lemma SkipBufCursor(c: BufCursor, n: U64)
    requires c.pos + n < U64_LIMIT
    ensures SkipSeek(BufSeek, c, n) == (Cursor(c.buf, Min(c.pos + n, |c.buf|)), Ok(Min(c.pos + n, |c.buf|)))
  {
  }

  /* --- Copy loops ---------------------------------------------------------- */

  /** How a copy loop ended: the reader's and the writer's states, the result,
      and every byte read, in order. */
  datatype Run<S, W> = Run(src: S, dst: W, result: Res<nat>, data: seq<Byte>)

  /** `copy(reader, bytes)` from the point where `readed` bytes, `got`, are in:
      reads into `next(bytes, readed)` until the `n`-byte destination is full. */
  function FillLoop<S>(read: ReadFn<S>, s: S, n: nat, readed: nat, got: seq<Byte>, fuel: nat): (r: Option<Run<S, ()>>)
    ensures r.Some? ==> got <= r.value.data
    decreases fuel
  {
    if readed >= n then Some(Run(s, (), Ok(readed), got))
    else if fuel == 0 then None
    else
      var (s1, res) := read(s, n - readed);
      if res.Err? then Some(Run(s1, (), Err(res.error), got))
      else FillLoop(read, s1, n, readed + |res.value|, got + res.value, fuel - 1)
  }

  /** `copy(reader, bytes)`: the loop, run for at most `fuel` reads. */
  method Fill<S>(read: ReadFn<S>, s: S, n: nat, fuel: nat) returns (r: Option<Run<S, ()>>)
    ensures r == FillLoop(read, s, n, 0, [], fuel)
  {
    var src, readed: nat, got: seq<Byte>, left: nat := s, 0, [], fuel;
    while readed < n
      invariant FillLoop(read, src, n, readed, got, left) == FillLoop(read, s, n, 0, [], fuel)
      decreases left
    {
      if left == 0 {
        return None;
      }
      var step := read(src, n - readed);
      src := step.0;
      var res := step.1;
      if res.Err? {
        return Some(Run(src, (), Err(res.error), got));
      }
      readed := readed + |res.value|;
      got := got + res.value;
      left := left - 1;
    }
    r := Some(Run(src, (), Ok(readed), got));
  }

  /** With a fitting reader, a successful fill reports exactly the destination
      length, and exactly that many bytes were read into it. */
  lemma {:induction false} FillExact<S(!new)>(read: ReadFn<S>, s: S, n: nat, readed: nat, got: seq<Byte>, fuel: nat)
    requires FitsReader(read) && readed <= n && |got| == readed
    ensures var r := FillLoop(read, s, n, readed, got, fuel);
            r.Some? && r.value.result.Ok? ==> r.value.result == Ok(n) && |r.value.data| == n
    decreases fuel
  {
    if readed < n && fuel > 0 {
      var (s1, res) := read(s, n - readed);
      if res.Ok? {
        FillExact(read, s1, n, readed + |res.value|, got + res.value, fuel - 1);
      }
    }
  }

  /** A reader at its end makes `copy(reader, bytes)` spin: no number of
      rounds finishes a non-empty destination. */
  lemma {:induction false} FillFromEmptyNeverEnds(n: nat, readed: nat, got: seq<Byte>, fuel: nat)
    requires readed < n
    ensures FillLoop(EmptyRead, (), n, readed, got, fuel) == None
    decreases fuel
  {
    if fuel > 0 {
      assert got + [] == got;
      FillFromEmptyNeverEnds(n, readed, got, fuel - 1);
    }
  }

  /** `copy(reader, writer)` from the point where `result` bytes, `got`, have
      been read: stops on an empty read or a short write and reports the total read. */
  function CopyLoop<S, W>(read: ReadFn<S>, write: WriteFn<W>, s: S, w: W, result: nat, got: seq<Byte>, fuel: nat)
    : (r: Option<Run<S, W>>)
    ensures r.Some? ==> got <= r.value.data
    ensures r.Some? && r.value.result.Ok? ==> r.value.result.value == result + |r.value.data| - |got|
    decreases fuel
  {
    if fuel == 0 then None
    else
      var (s1, res) := read(s, CHUNK);
      if res.Err? then Some(Run(s1, w, Err(res.error), got))
      else if |res.value| == 0 then Some(Run(s1, w, Ok(result), got))
      else
        var (w1, written) := write(w, res.value);
        if written.Err? then Some(Run(s1, w1, Err(written.error), got + res.value))
        else if written.value != |res.value| then Some(Run(s1, w1, Ok(result + |res.value|), got + res.value))
        else CopyLoop(read, write, s1, w1, result + |res.value|, got + res.value, fuel - 1)
  }

  /** `copy(reader, writer)`: the loop, run for at most `fuel` rounds. */
  method Copy<S, W>(read: ReadFn<S>, write: WriteFn<W>, s: S, w: W, fuel: nat) returns (r: Option<Run<S, W>>)
    ensures r == CopyLoop(read, write, s, w, 0, [], fuel)
  {
    var src, dst, result: nat, got: seq<Byte>, left: nat := s, w, 0, [], fuel;
    while true
      invariant CopyLoop(read, write, src, dst, result, got, left) == CopyLoop(read, write, s, w, 0, [], fuel)
      decreases left
    {
      if left == 0 {
        return None;
      }
      var step := read(src, CHUNK);
      src := step.0;
      var res := step.1;
      if res.Err? {
        return Some(Run(src, dst, Err(res.error), got));
      }
      if |res.value| == 0 {
        return Some(Run(src, dst, Ok(result), got));
      }
      result := result + |res.value|;
      got := got + res.value;
      var put := write(dst, res.value);
      dst := put.0;
      var written := put.1;
      if written.Err? {
        return Some(Run(src, dst, Err(written.error), got));
      }
      if written.value != |res.value| {
        return Some(Run(src, dst, Ok(result), got));
      }
      left := left - 1;
    }
  }

  /** Copying into a `BufferWriter` appends every byte read, and the result is their number. */
  lemma {:induction false} CopyIntoBufferWriter<S>(read: ReadFn<S>, s: S, w0: seq<Byte>, w: seq<Byte>,
                                                     result: nat, got: seq<Byte>, fuel: nat)
    requires w == w0 + got && result == |got|
    ensures var r := CopyLoop(read, BufferWrite, s, w, result, got, fuel);
            r.Some? && r.value.result.Ok? ==> r.value.dst == w0 + r.value.data && r.value.result.value == |r.value.data|
    decreases fuel
  {
    if fuel > 0 {
      var (s1, res) := read(s, CHUNK);
      if res.Ok? && |res.value| > 0 {
        assert w + res.value == w0 + (got + res.value);
        CopyIntoBufferWriter(read, s1, w0, w + res.value, result + |res.value|, got + res.value, fuel - 1);
      }
    }
  }

  /** `copy(reader, writer, size)` with `size` bytes still to go: like the
      unsized copy, but asks for at most `size` bytes and stops once none are left.
      The staging buffer is declared as 4096 byte slices in the source; it is
      taken here as the 4096 bytes it is evidently meant to be. */
  function CopySizedLoop<S, W>(read: ReadFn<S>, write: WriteFn<W>, s: S, w: W, size: U64,
                               result: nat, got: seq<Byte>, fuel: nat): (r: Option<Run<S, W>>)
    ensures r.Some? ==> got <= r.value.data
    ensures r.Some? && r.value.result.Ok? ==> r.value.result.value == result + |r.value.data| - |got|
    decreases fuel
  {
    if size == 0 then Some(Run(s, w, Ok(result), got))
    else if fuel == 0 then None
    else
      var (s1, res) := read(s, Min(size, CHUNK));
      if res.Err? then Some(Run(s1, w, Err(res.error), got))
      else if |res.value| == 0 then Some(Run(s1, w, Ok(result), got))
      else
        var (w1, written) := write(w, res.value);
        if written.Err? then Some(Run(s1, w1, Err(written.error), got + res.value))
        else if written.value != |res.value| then Some(Run(s1, w1, Ok(result + |res.value|), got + res.value))
        else CopySizedLoop(read, write, s1, w1, ToUsize(size - |res.value|), result + |res.value|,
                           got + res.value, fuel - 1)
  }

  /** `copy(reader, writer, size)`: the loop, run for at most `fuel` rounds. */
  method CopySized<S, W>(read: ReadFn<S>, write: WriteFn<W>, s: S, w: W, size: U64, fuel: nat)
    returns (r: Option<Run<S, W>>)
    ensures r == CopySizedLoop(read, write, s, w, size, 0, [], fuel)
  {
    var src, dst, left: U64, result: nat, got: seq<Byte>, rounds: nat := s, w, size, 0, [], fuel;
    while left > 0
      invariant CopySizedLoop(read, write, src, dst, left, result, got, rounds)
                == CopySizedLoop(read, write, s, w, size, 0, [], fuel)
      decreases rounds
    {
      if rounds == 0 {
        return None;
      }
      var step := read(src, Min(left, CHUNK));
      src := step.0;
      var res := step.1;
      if res.Err? {
        return Some(Run(src, dst, Err(res.error), got));
      }
      if |res.value| == 0 {
        return Some(Run(src, dst, Ok(result), got));
      }
      result := result + |res.value|;
      got := got + res.value;
      var put := write(dst, res.value);
      dst := put.0;
      var written := put.1;
      if written.Err? {
        return Some(Run(src, dst, Err(written.error), got));
      }
      if written.value != |res.value| {
        return Some(Run(src, dst, Ok(result), got));
      }
      left := ToUsize(left - |res.value|);
      rounds := rounds - 1;
    }
    r := Some(Run(src, dst, Ok(result), got));
  }

  /** With a fitting reader the sized copy never reports more than `size`:
      what was read plus what is left to read is always the original size. */
  lemma {:induction false} CopySizedAtMost<S(!new), W>(read: ReadFn<S>, write: WriteFn<W>, s: S, w: W, size: U64,
                                                         result: nat, got: seq<Byte>, fuel: nat)
    requires FitsReader(read) && result == |got|
    ensures var r := CopySizedLoop(read, write, s, w, size, result, got, fuel);
            r.Some? && r.value.result.Ok? ==> r.value.result.value <= result + size
    decreases fuel
  {
    if size > 0 && fuel > 0 {
      var (s1, res) := read(s, Min(size, CHUNK));
      if res.Ok? && |res.value| > 0 {
        assert |res.value| <= size;
        var (w1, written) := write(w, res.value);
        if written.Ok? && written.value == |res.value| {
          CopySizedAtMost(read, write, s1, w1, size - |res.value|, result + |res.value|, got + res.value, fuel - 1);
        }
      }
    }
  }

  /** With a fitting reader the sized copy ends within `size + 1` rounds:
      every round that does not stop reads at least one byte. */
  lemma {:induction false} CopySizedEnds<S(!new), W>(read: ReadFn<S>, write: WriteFn<W>, s: S, w: W, size: U64,
                                                       result: nat, got: seq<Byte>, fuel: nat)
    requires FitsReader(read) && fuel > size
    ensures CopySizedLoop(read, write, s, w, size, result, got, fuel).Some?
    decreases fuel
  {
    if size > 0 {
      var (s1, res) := read(s, Min(size, CHUNK));
      if res.Ok? && |res.value| > 0 {
        assert |res.value| <= size;
        var (w1, written) := write(w, res.value);
        if written.Ok? && written.value == |res.value| {
          CopySizedEnds(read, write, s1, w1, size - |res.value|, result + |res.value|, got + res.value, fuel - 1);
        }
      }
    }
  }

  /** `skip` on a reader: a sized copy into a `Sink`. */
  method SkipRead<S>(read: ReadFn<S>, s: S, n: U64, fuel: nat) returns (r: Option<Run<S, ()>>)
    ensures r == CopySizedLoop(read, SinkWrite, s, (), n, 0, [], fuel)
  {
    r := CopySized(read, SinkWrite, s, (), n, fuel);
  }

  /** Skipping `n` bytes of `Zero` reports `n`, given a round per byte. */
  lemma {:induction false} SkipZero(n: U64, result: nat, got: seq<Byte>, fuel: nat)
    requires fuel > n
    ensures var r := CopySizedLoop(ZeroRead, SinkWrite, (), (), n, result, got, fuel);
            r.Some? && r.value.result == Ok(result + n)
    decreases fuel
  {
    if n > 0 {
      var k := Min(n, CHUNK);
      SkipZero(n - k, result + k, got + ZeroRead((), k).1.value, fuel - 1);
    }
  }
}
