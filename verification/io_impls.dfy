/** karm-io/impls.h: the in-memory readers and writers.

    A reader is described by the effect of one `read` on its state: given the
    destination length it yields the new state and the bytes it places at the
    front of the destination. Writers and seekers are described the same way.
    Objects whose fields the source updates are classes whose methods are
    proved against these step functions. */
module IoImpls {
  import opened Base
  import opened Slices
  import opened Strings

  /* --- Reader, writer and seeker roles ------------------------------------ */

  datatype Whence = FromBegin | FromCurrent | FromEnd

  /** `Seek`: an offset from the start, the current position or the end. */
  datatype Seek = Seek(whence: Whence, offset: int)

  function Origin(seek: Seek, current: U64, size: U64): U64
  {
    match seek.whence
    case FromBegin => 0
    case FromCurrent => current
    case FromEnd => size
  }

  /** `Seek::apply(current, size)` (types.h is not part of this model): the
      position the offset designates, stored in a `usize`. */
  function Apply(seek: Seek, current: U64, size: U64): (r: U64)
    ensures 0 <= Origin(seek, current, size) + seek.offset < U64_LIMIT
            ==> r == Origin(seek, current, size) + seek.offset
  {
    ToUsize(Origin(seek, current, size) + seek.offset)
  }

  /** One `read(bytes)` on a reader in state `S`, `bytes` having the given length. */
  type ReadFn<!S> = (S, nat) -> (S, Res<seq<Byte>>)

  /** One `write(bytes)` on a writer in state `W`: the count it reports. */
  type WriteFn<!W> = (W, seq<Byte>) -> (W, Res<nat>)

  /** One `seek(seek)` on a seeker in state `S`: the position it reports. */
  type SeekFn<!S> = (S, Seek) -> (S, Res<U64>)

  /** A reader never produces more bytes than the destination holds. */
  ghost predicate FitsReader<S(!new)>(read: ReadFn<S>)
  {
    forall s: S, n: nat :: read(s, n).1.Ok? ==> |read(s, n).1.value| <= n
  }

  /** A writer never reports more bytes than it was given. */
  ghost predicate FitsWriter<W(!new)>(write: WriteFn<W>)
  {
    forall w: W, bytes: seq<Byte> :: write(w, bytes).1.Ok? ==> write(w, bytes).1.value <= |bytes|
  }

  /* --- Sink, Zero, Repeat, Empty ------------------------------------------ */

  /** `Sink::write`: accepts every byte and keeps nothing. */
  function SinkWrite(w: (), bytes: seq<Byte>): (r: ((), Res<nat>))
    ensures r.1 == Ok(|bytes|)
  {
    ((), Ok(|bytes|))
  }

  /** `Empty::read`: always at the end of its data. */
  function EmptyRead(s: (), n: nat): (r: ((), Res<seq<Byte>>))
    ensures r.1 == Ok([])
  {
    ((), Ok([]))
  }

  /** `Zero::read`: the whole destination, zeroed. */
  function ZeroRead(s: (), n: nat): (r: ((), Res<seq<Byte>>))
    ensures r.1.Ok? && |r.1.value| == n
    ensures forall i | 0 <= i < n :: r.1.value[i] == 0
  {
    ((), Ok(seq(n, _ => 0)))
  }

  /** `Zero::read` on a destination window: `zeroFill`s it and reports its length. */
  method Zero(dest: MutSlice<Byte>) returns (r: Res<nat>)
    requires dest.Valid()
    modifies dest.arr
    ensures r == Ok(dest.len)
    ensures dest.arr[..] == Overwrite(old(dest.arr[..]), dest.off, ZeroRead((), dest.len).1.value)
  {
    var n := ZeroFill(dest);
    r := Ok(n);
  }

  /** `Repeat`: a reader that produces one byte over and over. */
  datatype Repeat = Repeat(byte: Byte)
  {
    /** `Repeat::read`: the whole destination, filled with the byte. */
    function Step(n: nat): (r: (Repeat, Res<seq<Byte>>))
      ensures r.0 == this && r.1.Ok? && |r.1.value| == n
      ensures forall i | 0 <= i < n :: r.1.value[i] == byte
    {
      (this, Ok(seq(n, _ => byte)))
    }

    /** `Repeat::read` on a destination window: `fill`s it and reports its length. */
    method Read(dest: MutSlice<Byte>) returns (r: Res<nat>)
      requires dest.Valid()
      modifies dest.arr
      ensures r == Ok(dest.len)
      ensures dest.arr[..] == Overwrite(old(dest.arr[..]), dest.off, Step(dest.len).1.value)
    {
      var n := Fill(dest, byte);
      r := Ok(n);
    }
  }

  /** The stateless readers and the sink keep the reader and writer contracts. */
  lemma StatelessFit()
    ensures FitsReader(EmptyRead) && FitsReader(ZeroRead)
    ensures FitsReader((r: Repeat, n: nat) => r.Step(n))
    ensures FitsWriter(SinkWrite)
  {
  }

  /* --- Limit -------------------------------------------------------------- */

  /** `Limit::read`: asks the inner reader for at most `limit - read-so-far`
      bytes (a `usize` difference) and adds what it got to the count. */
  function LimitRead<S>(read: ReadFn<S>, limit: U64, st: (S, U64), n: nat): (r: ((S, U64), Res<seq<Byte>>))
    ensures r.0.0 == read(st.0, Min(n, ToUsize(limit - st.1))).0
    ensures r.1 == read(st.0, Min(n, ToUsize(limit - st.1))).1
    ensures r.1.Ok? ==> r.0.1 == ToUsize(st.1 + |r.1.value|)
    ensures r.1.Err? ==> r.0.1 == st.1
  {
    var size := Clamp(n, 0, ToUsize(limit - st.1));
    var (inner, res) := read(st.0, size);
    if res.Err? then ((inner, st.1), res)
    else ((inner, ToUsize(st.1 + |res.value|)), res)
  }

  /** Starting from a count within the limit, a fitting inner reader never
      lets the count pass the limit: every read stays within what is left. */
  lemma LimitStaysWithin<S(!new)>(read: ReadFn<S>, limit: U64, st: (S, U64), n: nat)
    requires FitsReader(read) && st.1 <= limit
    ensures var r := LimitRead(read, limit, st, n);
            r.0.1 <= limit
            && (r.1.Ok? ==> |r.1.value| <= limit - st.1 && |r.1.value| <= n && r.0.1 == st.1 + |r.1.value|)
  {
    var size := Min(n, ToUsize(limit - st.1));
    assert size <= limit - st.1;
    var r := read(st.0, size);
    if r.1.Ok? {
      assert |r.1.value| <= size;
    }
  }

  /** A count above the limit, which an uninitialised `_read` may hold, makes
      `limit - _read` wrap around, so the limit no longer binds. */
  lemma LimitUninitialised<S>(read: ReadFn<S>, s: S)
    ensures var r := LimitRead(read, 0, (s, 1), 100);
            r.0.0 == read(s, 100).0 && r.1 == read(s, 100).1
  {
    assert ToUsize(0 - 1) == U64_LIMIT - 1;
  }

  /** `Limit<Readable>`: a reader that stops after `limit` bytes. */
  class Limit<S> {
    var inner: S
    const read: ReadFn<S>
    const limit: U64
    /** `_read`, the byte count so far. */
    var count: U64

    /** `Limit(reader, limit)` leaves `_read` uninitialised: whatever the
        storage held is passed in as `garbage`. */
    constructor(inner: S, read: ReadFn<S>, limit: U64, garbage: U64)
      ensures this.inner == inner && this.read == read && this.limit == limit
      ensures count == garbage
    {
      this.inner, this.read, this.limit, count := inner, read, limit, garbage;
    }

    method Read(n: nat) returns (r: Res<seq<Byte>>)
      modifies this
      ensures ((inner, count), r) == LimitRead(read, limit, (old(inner), old(count)), n)
    {
      var size := Clamp(n, 0, ToUsize(limit - count));
      var step := read(inner, size);
      var res := step.1;
      inner := step.0;
      if res.Err? {
        return res;
      }
      count := ToUsize(count + |res.value|);
      r := res;
    }
  }

  /* --- BufReader ---------------------------------------------------------- */

  datatype Cursor = Cursor(buf: seq<Byte>, pos: nat)

  /** The state of a `BufReader`: a `usize`-sized buffer and a position inside it. */
  type BufCursor = c: Cursor | c.pos <= |c.buf| < U64_LIMIT witness Cursor([], 0)

  /** `BufReader::read` as written: it copies `sub(buf, pos, n)`, where `n` is
      the destination length rather than `pos + n`. */
  function BufRead(c: BufCursor, n: nat): (r: (BufCursor, Res<seq<Byte>>))
    ensures r.1.Ok? && r.1.value == c.buf[c.pos..Clamp(n, c.pos, |c.buf|)]
    ensures |r.1.value| <= n
    ensures r.0 == Cursor(c.buf, c.pos + |r.1.value|)
  {
    var slice := Sub(c.buf, c.pos, n);
    var read := Min(|slice|, n);
    (Cursor(c.buf, c.pos + read), Ok(slice[..read]))
  }

  /** `BufReader::seek` and `BufWriter::seek`: the designated position, clamped
      into the buffer, is both the new position and the result. */
  function BufSeek(c: BufCursor, seek: Seek): (r: (BufCursor, Res<U64>))
    ensures r.0.buf == c.buf && r.0.pos <= |c.buf| && r.1 == Ok(r.0.pos)
    ensures Apply(seek, c.pos, |c.buf|) <= |c.buf| ==> r.0.pos == Apply(seek, c.pos, |c.buf|)
    ensures Apply(seek, c.pos, |c.buf|) > |c.buf| ==> r.0.pos == |c.buf|
  {
    var pos := Clamp(Apply(seek, c.pos, |c.buf|), 0, |c.buf|);
    (Cursor(c.buf, pos), Ok(pos))
  }

  /** The read `BufReader` evidently intends: the next `n` bytes, or what is left. */
  function BufReadIntended(c: BufCursor, n: nat): (r: (BufCursor, Res<seq<Byte>>))
    ensures r.1.Ok? && r.1.value == c.buf[c.pos..Min(c.pos + n, |c.buf|)]
    ensures r.0 == Cursor(c.buf, c.pos + |r.1.value|)
  {
    var slice := Sub(c.buf, c.pos, c.pos + n);
    (Cursor(c.buf, c.pos + |slice|), Ok(slice))
  }

  /** As written, a read once the cursor has passed the destination length
      returns nothing although bytes remain: two one-byte reads of `[1, 2]`. */
  lemma BufReadStalls()
    ensures var c := Cursor([1, 2], 0);
            var first := BufRead(c, 1);
            first.1 == Ok([1]) && BufRead(first.0, 1).1 == Ok([])
    ensures var c := Cursor([1, 2], 0);
            var first := BufReadIntended(c, 1);
            first.1 == Ok([1]) && BufReadIntended(first.0, 1).1 == Ok([2])
  {
    var c: BufCursor := Cursor([1, 2], 0);
    var c1: BufCursor := Cursor([1, 2], 1);
    assert [1, 2][0..1] == [1] && [1, 2][1..2] == [2] && [1, 2][1..1] == [];
    assert BufRead(c, 1) == (c1, Ok([1]));
    assert BufRead(c1, 1).1 == Ok([]);
    assert BufReadIntended(c, 1) == (c1, Ok([1]));
    assert BufReadIntended(c1, 1).1 == Ok([2]);
  }

  /** The intended read streams the buffer: two reads in a row deliver the
      same bytes as one read of the combined length. */
  lemma {:induction false} BufReadIntendedStreams(c: BufCursor, n: nat, m: nat)
    ensures var first := BufReadIntended(c, n);
            var second := BufReadIntended(first.0, m);
            var both := BufReadIntended(c, n + m);
            first.1.value + second.1.value == both.1.value && second.0 == both.0
  {
    var p1 := Min(c.pos + n, |c.buf|);
    var p2 := Min(p1 + m, |c.buf|);
    assert p2 == Min(c.pos + n + m, |c.buf|);
    assert c.buf[c.pos..p1] + c.buf[p1..p2] == c.buf[c.pos..p2];
  }

  /** `BufReader`: reads and seeks over a byte buffer it does not own. */
  class BufReader {
    const buf: seq<Byte>
    var pos: nat

    ghost predicate Valid()
      reads this
    {
      pos <= |buf| < U64_LIMIT
    }

    ghost function State(): BufCursor
      reads this
      requires Valid()
    {
      Cursor(buf, pos)
    }

    constructor(buf: seq<Byte>)
      requires |buf| < U64_LIMIT
      ensures Valid() && this.buf == buf && pos == 0
    {
      this.buf, pos := buf, 0;
    }

    /** Copies the window `BufRead` selects into `dest` and advances over it. */
    method Read(dest: MutSlice<Byte>) returns (r: Res<nat>)
      requires Valid() && dest.Valid()
      modifies this, dest.arr
      ensures Valid() && State() == BufRead(old(State()), dest.len).0
      ensures r == Ok(|BufRead(old(State()), dest.len).1.value|)
      ensures dest.arr[..] == Overwrite(old(dest.arr[..]), dest.off, BufRead(old(State()), dest.len).1.value)
    {
      var slice := Sub(buf, pos, dest.len);
      var read := Copy(slice, dest);
      pos := pos + read;
      r := Ok(read);
    }

    method Seek(seek: Seek) returns (r: Res<U64>)
      requires Valid()
      modifies this
      ensures Valid() && (State(), r) == BufSeek(old(State()), seek)
    {
      pos := Apply(seek, pos, |buf|);
      pos := Clamp(pos, 0, |buf|);
      r := Ok(pos);
    }
  }

  /* --- BufWriter ---------------------------------------------------------- */

  /** A write through a window of an array is `BufWrite` on the window. */
  lemma BufWriteWindow(a: seq<Byte>, a': seq<Byte>, off: nat, len: nat, at: nat, bytes: seq<Byte>, written: nat)
    requires off + len <= |a| && at <= len < U64_LIMIT && written == Min(|bytes|, len - at)
    requires a' == Overwrite(a, off + at, bytes[..written])
    ensures BufWrite(Cursor(a[off..off + len], at), bytes) == (Cursor(a'[off..off + len], at + written), Ok(written))
  {
    OverwriteWindow(a, off, len, at, bytes[..written]);
  }

  /** `BufWriter::write`: as many bytes as fit from the position on replace
      the buffer's bytes there; the position advances by the count. */
  function BufWrite(c: BufCursor, bytes: seq<Byte>): (r: (BufCursor, Res<nat>))
    ensures r.1.Ok? && r.1.value == Min(|bytes|, |c.buf| - c.pos)
    ensures r.0.pos == c.pos + r.1.value && |r.0.buf| == |c.buf|
    ensures r.0.buf[c.pos..r.0.pos] == bytes[..r.1.value]
    ensures forall k | 0 <= k < |c.buf| && !(c.pos <= k < r.0.pos) :: r.0.buf[k] == c.buf[k]
  {
    var written := Min(|bytes|, |c.buf| - c.pos);
    (Cursor(Overwrite(c.buf, c.pos, bytes[..written]), c.pos + written), Ok(written))
  }

  /** Overwriting inside a window of an array is overwriting the window. */
  lemma OverwriteWindow<T>(a: seq<T>, off: nat, len: nat, at: nat, w: seq<T>)
    requires off + len <= |a| && at + |w| <= len
    ensures Overwrite(a, off + at, w)[off..off + len] == Overwrite(a[off..off + len], at, w)
  {
    var l := Overwrite(a, off + at, w)[off..off + len];
    var r := Overwrite(a[off..off + len], at, w);
    assert forall k | 0 <= k < len :: l[k] == r[k];
  }

  /** `BufWriter`: writes and seeks over a byte window it does not own. */
  class BufWriter {
    const buf: MutSlice<Byte>
    var pos: nat

    ghost predicate Valid()
      reads this
    {
      buf.Valid() && pos <= buf.len < U64_LIMIT
    }

    ghost function State(): BufCursor
      reads this, buf.arr
      requires Valid()
    {
      Cursor(buf.arr[buf.off..buf.off + buf.len], pos)
    }

    constructor(buf: MutSlice<Byte>)
      requires buf.Valid() && buf.len < U64_LIMIT
      ensures Valid() && this.buf == buf && pos == 0
    {
      this.buf, pos := buf, 0;
    }

    method Seek(seek: Seek) returns (r: Res<U64>)
      requires Valid()
      modifies this
      ensures Valid() && (State(), r) == BufSeek(old(State()), seek)
    {
      pos := Apply(seek, pos, buf.len);
      pos := Clamp(pos, 0, buf.len);
      r := Ok(pos);
    }

    /** Copies what fits of `bytes` into the window from the position on,
        leaving every other byte of the array alone. */
    method Write(bytes: seq<Byte>) returns (r: Res<nat>)
      requires Valid()
      modifies this, buf.arr
      ensures Valid() && (State(), r) == BufWrite(old(State()), bytes)
      ensures buf.arr[..] == Overwrite(old(buf.arr[..]), buf.off + old(pos), bytes[..r.value])
    {
      ghost var before, at := buf.arr[..], pos;
      var written := CopyAtPos(bytes);
      ghost var after := buf.arr[..];
      BufWriteWindow(before, after, buf.off, buf.len, at, bytes, written);
      pos := pos + written;
      r := Ok(written);
    }

    /** The copy `write` makes into `next(buf, pos)`; the position stays. */
    method CopyAtPos(bytes: seq<Byte>) returns (written: nat)
      requires Valid()
      modifies buf.arr
      ensures written == Min(|bytes|, buf.len - pos)
      ensures buf.arr[..] == Overwrite(old(buf.arr[..]), buf.off + pos, bytes[..written])
    {
      var slice := MutNext(buf, pos);
      written := Copy(bytes, slice);
    }
  }

  /* --- BufferWriter ------------------------------------------------------- */

  /** `BufferWriter::write`: appends every byte and reports them all. */
  function BufferWrite(w: seq<Byte>, bytes: seq<Byte>): (r: (seq<Byte>, Res<nat>))
    ensures |r.0| == |w| + |bytes| && r.0[..|w|] == w && r.0[|w|..] == bytes
    ensures r.1 == Ok(|bytes|)
  {
    (w + bytes, Ok(|bytes|))
  }

  /** `BufferWriter`: a growable byte buffer. */
  class BufferWriter {
    var buf: seq<Byte>

    /** The initial capacity is not observable. */
    constructor(cap: nat)
      ensures buf == []
    {
      buf := [];
    }

    /** Inserts the bytes at the end one at a time. */
    method Write(bytes: seq<Byte>) returns (r: Res<nat>)
      modifies this
      ensures (buf, r) == BufferWrite(old(buf), bytes)
    {
      var written := 0;
      for i := 0 to |bytes|
        invariant buf == old(buf) + bytes[..i] && written == i
      {
        buf := buf + [bytes[i]];
        written := written + 1;
      }
      assert bytes[..|bytes|] == bytes;
      r := Ok(written);
    }

    /** `bytes()`: the buffered bytes. */
    function Bytes(): (r: seq<Byte>)
      reads this
      ensures r == buf
    {
      buf
    }

    /** Empties the buffer and reports how much it held. */
    method Flush() returns (r: Res<nat>)
      modifies this
      ensures r == Ok(|old(buf)|) && buf == []
    {
      var l := |buf|;
      buf := [];
      r := Ok(l);
    }
  }

  /* --- BitReader ---------------------------------------------------------- */

  function Pow2(k: nat): (r: nat)
    ensures r >= 1
  {
    if k == 0 then 1 else 2 * Pow2(k - 1)
  }

  /** `BitReader`'s state: the wrapped reader, the byte being consumed and the
      number of its bits not yet returned. */
  datatype BitState<S> = BitState(src: S, bits: Byte, len: nat)

  /** The unreturned bits are exactly the `len` low bits of `bits`. */
  ghost predicate BitsValid<S>(st: BitState<S>)
  {
    st.len <= 8 && st.bits < Pow2(st.len)
  }

  /** `readBit()`: fetches one byte (into `bits`, which an empty read leaves
      alone) when no bit is left, then returns and drops the lowest bit. */
  function TakeBit<S>(read: ReadFn<S>, st: BitState<S>): (r: (BitState<S>, Res<Byte>))
    ensures r.1.Ok? ==> r.1.value < 2
    ensures st.len > 0 ==> r.0.src == st.src && r.0.len == st.len - 1
                           && r.1 == Ok(st.bits % 2) && r.0.bits == st.bits / 2
    ensures st.len == 0 && r.1.Ok? ==> r.0.len == 7 && r.0.src == read(st.src, 1).0
    ensures st.len == 0 && read(st.src, 1).1.Ok? && |read(st.src, 1).1.value| > 0 ==>
              r == (BitState(read(st.src, 1).0, read(st.src, 1).1.value[0] / 2, 7), Ok(read(st.src, 1).1.value[0] % 2))
    ensures st.len == 0 && read(st.src, 1).1.Err? ==>
              r.0.src == read(st.src, 1).0 && r.1 == Err(read(st.src, 1).1.error)
    ensures BitsValid(st) ==> BitsValid(r.0)
  {
    if st.len == 0 then
      var (src, res) := read(st.src, 1);
      if res.Err? then (st.(src := src), Err(res.error))
      else
        var bits := if |res.value| > 0 then res.value[0] else st.bits;
        (BitState(src, bits / 2, 7), Ok(bits % 2))
    else
      (st.(bits := st.bits / 2, len := st.len - 1), Ok(st.bits % 2))
  }

  /** At the end of the input a drained reader returns zero bits. */
  lemma TakeBitAtEnd<S>(read: ReadFn<S>, st: BitState<S>)
    requires BitsValid(st) && st.len == 0 && read(st.src, 1).1 == Ok([])
    ensures TakeBit(read, st).1 == Ok(0)
  {
  }

  /** `readBits(len)`: the i-th bit read lands at bit position i. The source
      ORs `bit << i` into the result; as bit i is still clear, that is adding
      `bit * 2^i`. An error stops the loop. */
  function TakeBits<S>(read: ReadFn<S>, st: BitState<S>, k: nat): (r: (BitState<S>, Res<nat>))
    ensures r.1.Ok? ==> r.1.value < Pow2(k)
  {
    if k == 0 then (st, Ok(0))
    else
      var prev := TakeBits(read, st, k - 1);
      if prev.1.Err? then prev
      else
        var next := TakeBit(read, prev.0);
        if next.1.Err? then (next.0, Err(next.1.error))
        else (next.0, Ok(SetBit(prev.1.value, next.1.value, k - 1)))
  }

  /** `acc | bit << i` for an `acc` below bit `i`. */
  function SetBit(acc: nat, bit: nat, i: nat): (r: nat)
    requires acc < Pow2(i) && bit < 2
    ensures r < Pow2(i + 1)
    ensures r % Pow2(i) == acc
  {
    DivMulUnique(acc + bit * Pow2(i), bit, Pow2(i), acc);
    acc + bit * Pow2(i)
  }

  /** Once `readBits` fails, reading further bits changes nothing. */
  lemma {:induction false} TakeBitsErrorSticks<S>(read: ReadFn<S>, st: BitState<S>, j: nat, k: nat)
    requires j <= k && TakeBits(read, st, j).1.Err?
    ensures TakeBits(read, st, k) == TakeBits(read, st, j)
    decreases k
  {
    if j < k {
      TakeBitsErrorSticks(read, st, j, k - 1);
    }
  }

  lemma DivMulUnique(y: int, q: int, m: int, r: int)
    requires m > 0 && 0 <= r < m && y == q * m + r
    ensures y / m == q && y % m == r
  {
    ModUnique(y, q, m, r);
    assert (y / m - q) * m == 0 by {
      assert y == (y / m) * m + r;
      assert (y / m - q) * m == (y / m) * m - q * m;
    }
  }

  /** Splitting off bit `k` of `x`: the low `k + 1` bits are the low `k` bits
      plus that bit, and dropping `k + 1` bits is dropping `k` then one more. */
  lemma {:induction false} SplitLowBits(x: nat, k: nat)
    ensures x % Pow2(k) + (x / Pow2(k)) % 2 * Pow2(k) == x % Pow2(k + 1)
    ensures x / Pow2(k) / 2 == x / Pow2(k + 1)
  {
    var p := Pow2(k);
    assert Pow2(k + 1) == 2 * p;
    var q, r := x / p, x % p;
    var h, b := q / 2, q % 2;
    assert x == q * p + r;
    assert q == h * 2 + b;
    assert q * p == h * 2 * p + b * p by {
      assert (h * 2 + b) * p == h * 2 * p + b * p;
    }
    assert h * 2 * p == h * (2 * p);
    assert b == 0 || b == 1;
    assert 0 <= b * p <= p;
    DivMulUnique(x, h, 2 * p, b * p + r);
  }

  /** Dividing a byte by a power of two leaves a byte. */
  lemma {:induction false} DivPow2Byte(b: Byte, k: nat)
    ensures 0 <= b / Pow2(k) <= b
  {
    if k > 0 {
      DivPow2Byte(b, k - 1);
      SplitLowBits(b, k - 1);
    }
  }

  /** `b >> k`, which stays a byte. */
  function Shr(b: Byte, k: nat): (r: Byte)
    ensures r == b / Pow2(k)
  {
    DivPow2Byte(b, k);
    b / Pow2(k)
  }

  /** Within one fetched byte, `readBits(k)` returns its `k` low bits, least
      significant first, and consumes exactly `k` of them. */
  lemma {:induction false} TakeBitsWithinByte<S>(read: ReadFn<S>, st: BitState<S>, k: nat)
    requires BitsValid(st) && k <= st.len
    ensures TakeBits(read, st, k) == (st.(bits := Shr(st.bits, k), len := st.len - k), Ok(st.bits % Pow2(k)))
  {
    if k > 0 {
      TakeBitsWithinByte(read, st, k - 1);
      var p := Pow2(k - 1);
      var mid := st.(bits := Shr(st.bits, k - 1), len := st.len - (k - 1));
      var next := TakeBit(read, mid);
      assert next == (mid.(bits := mid.bits / 2, len := mid.len - 1), Ok(mid.bits % 2));
      assert TakeBits(read, st, k) == (next.0, Ok(SetBit(st.bits % p, mid.bits % 2, k - 1)));
      SplitLowBits(st.bits, k - 1);
      assert next.0 == st.(bits := Shr(st.bits, k), len := st.len - k);
    }
  }

  lemma {:induction false} Pow2Add(j: nat, k: nat)
    ensures Pow2(j + k) == Pow2(j) * Pow2(k)
  {
    if k > 0 {
      Pow2Add(j, k - 1);
    }
  }

  /** The result of `readBits(j)` followed by the result of `readBits(k)`:
      the second error if there is one, otherwise the second value shifted
      above the first `j` bits. */
  ghost function Joined<S>(low: (BitState<S>, Res<nat>), j: nat, high: (BitState<S>, Res<nat>)): (r: (BitState<S>, Res<nat>))
    requires low.1.Ok?
    ensures r.0 == high.0
  {
    if high.1.Err? then high else (high.0, Ok(low.1.value + Pow2(j) * high.1.value))
  }

  /** `readBits(j + k)` is `readBits(j)` followed by `readBits(k)`: the first
      `j` bits read are the low `j` bits of the result and the next `k` bits
      follow them from bit `j` on, whatever bytes are fetched in between; an
      error in the second part is the error of the whole. */
  lemma {:induction false} TakeBitsSplit<S>(read: ReadFn<S>, st: BitState<S>, j: nat, k: nat)
    requires TakeBits(read, st, j).1.Ok?
    ensures TakeBits(read, st, j + k) == Joined(TakeBits(read, st, j), j, TakeBits(read, TakeBits(read, st, j).0, k))
  {
    var low := TakeBits(read, st, j);
    if k == 0 {
      assert TakeBits(read, low.0, 0) == (low.0, Ok(0));
      assert low == (low.0, Ok(low.1.value + Pow2(j) * 0));
    } else {
      TakeBitsSplit(read, st, j, k - 1);
      TakeBitsSplitStep(read, st, j, k);
    }
  }

  /** One more bit on both sides keeps `TakeBitsSplit`'s equation. */
  lemma TakeBitsSplitStep<S>(read: ReadFn<S>, st: BitState<S>, j: nat, k: nat)
    requires k > 0 && TakeBits(read, st, j).1.Ok?
    requires TakeBits(read, st, j + k - 1) == Joined(TakeBits(read, st, j), j, TakeBits(read, TakeBits(read, st, j).0, k - 1))
    ensures TakeBits(read, st, j + k) == Joined(TakeBits(read, st, j), j, TakeBits(read, TakeBits(read, st, j).0, k))
  {
    var low := TakeBits(read, st, j);
    var prev := TakeBits(read, low.0, k - 1);
    var whole := TakeBits(read, st, j + k - 1);
    if prev.1.Err? {
      assert TakeBits(read, st, j + k) == prev;
      assert TakeBits(read, low.0, k) == prev;
    } else {
      var next := TakeBit(read, prev.0);
      if next.1.Err? {
        assert TakeBits(read, st, j + k) == (next.0, Err(next.1.error));
        assert TakeBits(read, low.0, k) == (next.0, Err(next.1.error));
      } else {
        var bit := next.1.value;
        assert whole.1.value == low.1.value + Pow2(j) * prev.1.value;
        assert TakeBits(read, st, j + k) == (next.0, Ok(SetBit(whole.1.value, bit, j + k - 1)));
        assert TakeBits(read, low.0, k) == (next.0, Ok(SetBit(prev.1.value, bit, k - 1)));
        ShiftedSetBit(low.1.value, prev.1.value, bit, j, k - 1);
      }
    }
  }

  /** Setting bit `j + i` above `j` low bits is setting bit `i` of the high part. */
  lemma ShiftedSetBit(lo: nat, hi: nat, bit: nat, j: nat, i: nat)
    requires bit < 2 && hi < Pow2(i) && lo + Pow2(j) * hi < Pow2(j + i)
    ensures SetBit(lo + Pow2(j) * hi, bit, j + i) == lo + Pow2(j) * SetBit(hi, bit, i)
  {
    Pow2Add(j, i);
    Distribute(lo, Pow2(j), hi, bit, Pow2(i));
  }

  lemma Distribute(lo: int, p: int, hi: int, bit: int, q: int)
    ensures lo + p * hi + bit * (p * q) == lo + p * (hi + bit * q)
  {
    assert bit * (p * q) == p * (bit * q);
  }

  /** From an empty buffer, `readBits(8)` fetches one byte and returns it
      whole, least significant bit first, leaving no bit buffered. With
      `TakeBitsSplit`, reading `8 * n` bits returns the next `n` bytes. */
  lemma TakeBitsFetchedByte<S>(read: ReadFn<S>, st: BitState<S>)
    requires st.len == 0 && read(st.src, 1).1.Ok? && |read(st.src, 1).1.value| > 0
    ensures TakeBits(read, st, 8) == (BitState(read(st.src, 1).0, 0, 0), Ok(read(st.src, 1).1.value[0] as nat))
  {
    var b := read(st.src, 1).1.value[0];
    var first := TakeBits(read, st, 1);
    assert TakeBits(read, st, 0) == (st, Ok(0));
    assert first == (BitState(read(st.src, 1).0, b / 2, 7), Ok(b % 2));
    TakeBitsSplit(read, st, 1, 7);
    TakeBitsWithinByte(read, first.0, 7);
    assert Pow2(1) == 2 && Pow2(7) == 128;
    ByteHalves(b);
  }

  /** A byte is its low bit plus twice the other seven. */
  lemma ByteHalves(b: Byte)
    ensures b % 2 + 2 * ((b / 2) % 128) == b && (b / 2) / 128 == 0
  {
  }

  /** `BitReader`: reads a byte stream bit by bit, least significant bit first. */
  class BitReader<S> {
    var src: S
    const read: ReadFn<S>
    var bits: Byte
    var len: nat

    ghost function State(): BitState<S>
      reads this
    {
      BitState(src, bits, len)
    }

    constructor(read: ReadFn<S>, src: S)
      ensures this.read == read && State() == BitState(src, 0, 0) && BitsValid(State())
    {
      this.read, this.src, bits, len := read, src, 0, 0;
    }

    method ReadBit() returns (r: Res<Byte>)
      modifies this
      ensures (State(), r) == TakeBit(read, old(State()))
    {
      if len == 0 {
        var step := read(src, 1);
        var res := step.1;
        src := step.0;
        if res.Err? {
          return Err(res.error);
        }
        if |res.value| > 0 {
          bits := res.value[0];
        }
        len := 8;
      }
      var bit := bits % 2;
      bits := bits / 2;
      len := len - 1;
      r := Ok(bit);
    }

    method ReadBits(k: nat) returns (r: Res<nat>)
      modifies this
      ensures (State(), r) == TakeBits(read, old(State()), k)
    {
      var acc := 0;
      for i := 0 to k
        invariant (State(), Ok(acc)) == TakeBits(read, old(State()), i)
      {
        var bit := ReadBit();
        if bit.Err? {
          TakeBitsErrorSticks(read, old(State()), i + 1, k);
          return Err(bit.error);
        }
        acc := SetBit(acc, bit.value, i);
      }
      r := Ok(acc);
    }
  }

  /* --- StringWriter ------------------------------------------------------- */

  /** `_StringWriter`: a growable unit buffer that is turned into a string. */
  class StringWriter {
    var buf: seq<char>

    constructor(cap: nat)
      ensures buf == []
    {
      buf := [];
    }

    /** `writeUnit(units)`: appends the units and reports how many. */
    method WriteUnit(units: seq<char>) returns (r: Res<nat>)
      modifies this
      ensures buf == old(buf) + units && r == Ok(|units|)
    {
      buf := buf + units;
      r := Ok(|units|);
    }

    /** `take()`: terminates the buffer and hands its storage to a string of
        the units written, leaving the writer empty. */
    method Take() returns (s: OwnedString)
      modifies this
      ensures fresh(s) && s.Valid() && s.Terminated()
      ensures s.Units() == old(buf) && buf == []
    {
      var len := |buf|;
      buf := buf + ['\0'];
      var storage := new char[|buf|](i requires 0 <= i < |buf| reads this => buf[i]);
      buf := [];
      s := new OwnedString.Adopt(storage, len);
    }
  }
}
