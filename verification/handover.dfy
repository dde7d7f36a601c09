/** specs/handover/spec.h: the boot hand-off payload a loader passes to the
    kernel, a table of tagged memory records and a string area. */
module Handover {
  import opened Base

  const COOLBOOT: U32 := 0xc001b001

  /** `enum struct Tag : u32`; the table can hold any 32-bit value. */
  type Tag = U32

  const FREE: Tag := 0
  const MAGIC: Tag := COOLBOOT
  const SELF: Tag := 0xa24f988d
  const STACK: Tag := 0xf65b391b
  const KERNEL: Tag := 0xbfc71b20
  const LOADER: Tag := 0xf1f80c26
  const FILE: Tag := 0xcbc36d3b
  const RSDP: Tag := 0x8d3bbb
  const FDT: Tag := 0xb628bbc1
  const FB: Tag := 0xe2d55685
  const RESERVED: Tag := 0xb8841d2d
  const END: Tag := 0xffffffff

  /** The tags the `FOREACH_TAG` list declares. */
  ghost predicate Known(tag: Tag)
  {
    tag in {FREE, MAGIC, SELF, STACK, KERNEL, LOADER, FILE, RSDP, FDT, FB, RESERVED, END}
  }

  /** `tagName(tag)`: the declared name, or `"UNKNOWN"` for any other value. */
  function TagName(tag: Tag): (r: string)
    ensures r == "UNKNOWN" <==> !Known(tag)
  {
    if tag == FREE then "FREE"
    else if tag == MAGIC then "MAGIC"
    else if tag == SELF then "SELF"
    else if tag == STACK then "STACK"
    else if tag == KERNEL then "KERNEL"
    else if tag == LOADER then "LOADER"
    else if tag == FILE then "FILE"
    else if tag == RSDP then "RSDP"
    else if tag == FDT then "FDT"
    else if tag == FB then "FB"
    else if tag == RESERVED then "RESERVED"
    else if tag == END then "END"
    else "UNKNOWN"
  }

  /** Different declared tags have different names. */
  lemma TagNameInjective(a: Tag, b: Tag)
    requires Known(a) && Known(b) && TagName(a) == TagName(b)
    ensures a == b
  {
  }

  /** `shouldMerge(tag)`: whether adjacent records of this kind may be coalesced. */
  function ShouldMerge(tag: Tag): (r: bool)
    ensures r <==> tag == FREE || tag == LOADER || tag == KERNEL || tag == RESERVED
  {
    match tag
    case 0 => true
    case 0xf1f80c26 => true
    case 0xbfc71b20 => true
    case 0xb8841d2d => true
    case _ => false
  }

  /** `Record`. The anonymous union is kept as its widest member `more`; the
      `file` view of it reads the low 32 bits as the name offset (the
      little-endian layout of the targets). */
  datatype Record = Record(tag: Tag, flags: U32, start: U64, size: U64, more: U64)
  {
    /** `end()`: `start + size` in `u64`, which wraps. */
    function End(): (r: U64)
      ensures start + size < U64_LIMIT ==> r == start + size
      ensures start + size >= U64_LIMIT ==> r == start + size - U64_LIMIT
    {
      (start + size) % U64_LIMIT
    }

    function Empty(): (r: bool)
    {
      size == 0
    }

    /** `file.name`, the string offset of a FILE record. */
    function FileName(): (r: U32)
    {
      more % U32_LIMIT
    }
  }

  /** The union read through `file`: on a little-endian machine, `more` holds
      `name` in its low half and `meta` in its high half, and `file.name` reads
      `name` back. */
  lemma FileNameOfFileFields(r: Record, name: nat, meta: nat)
    requires name < U32_LIMIT && meta < U32_LIMIT && r.more == meta * U32_LIMIT + name
    ensures r.FileName() == name
  {
    ModUnique(r.more, meta, U32_LIMIT, name);
  }

  /** A record is empty exactly when its end is its start, wrap-around included. */
  lemma EmptyIffEndIsStart(r: Record)
    ensures r.Empty() <==> r.End() == r.start
  {
  }

  /** The value-initialised `Record{}`: tag FREE, everything zero. */
  const DEFAULT_RECORD: Record := Record(FREE, 0, 0, 0, 0)

  /** `Payload`: the header, the record table, and the strings stored in the
      payload, by their offset from its start (each one NUL-terminated). */
  datatype Payload = Payload(magic: U32, agent: U32, size: U32, records: seq<Record>, strings: map<U64, string>)
  {
    ghost predicate StringsValid()
    {
      forall o | o in strings :: IsCStr(strings[o])
    }

    /** An offset `stringAt` can follow: 0, or the start of a stored string. */
    ghost predicate ValidOffset(offset: U64)
    {
      offset == 0 || offset in strings
    }

    /** `stringAt(offset)`: offset 0 is the empty string. */
    function StringAt(offset: U64): (r: string)
      requires ValidOffset(offset)
      ensures offset == 0 ==> r == "\0"
      ensures offset != 0 ==> r == strings[offset]
      ensures StringsValid() ==> IsCStr(r)
    {
      if offset == 0 then "\0" else strings[offset]
    }
  }

  /** `Utils::cstrEq`: walks both strings while neither has reached its NUL. */
  method CStrEq(a: string, b: string) returns (r: bool)
    requires IsCStr(a) && IsCStr(b)
    ensures r <==> a[..CLen(a) + 1] == b[..CLen(b) + 1]
  {
    var i := 0;
    while a[i] != '\0' && b[i] != '\0'
      invariant i <= CLen(a) && i <= CLen(b)
      invariant a[..i] == b[..i]
      decreases CLen(a) - i
    {
      if a[i] != b[i] {
        assert a[..CLen(a) + 1][i] != b[..CLen(b) + 1][i];
        return false;
      }
      i := i + 1;
    }
    r := a[i] == b[i];
    if r {
      assert i == CLen(a) == CLen(b);
      assert a[..i + 1] == a[..i] + [a[i]] && b[..i + 1] == b[..i] + [b[i]];
    }
  }

  /** `findTag(tag)`: the index of the first record with that tag (the C++
      code returns its address), or none. */
  method FindTag(p: Payload, tag: Tag) returns (r: Option<nat>)
    ensures r.Some? ==> r.value < |p.records| && p.records[r.value].tag == tag
    ensures r.Some? ==> forall k | 0 <= k < r.value :: p.records[k].tag != tag
    ensures r.None? ==> forall k | 0 <= k < |p.records| :: p.records[k].tag != tag
  {
    for i := 0 to |p.records|
      invariant forall k | 0 <= k < i :: p.records[k].tag != tag
    {
      if p.records[i].tag == tag {
        return Some(i);
      }
    }
    return None;
  }

  /** The FILE records whose name `fileByName` compares, equal to `name`. */
  ghost predicate NamedFile(p: Payload, r: Record, name: string)
    requires p.StringsValid() && IsCStr(name) && p.ValidOffset(r.FileName())
  {
    var s := p.StringAt(r.FileName());
    r.tag == FILE && s[..CLen(s) + 1] == name[..CLen(name) + 1]
  }

  /** Every FILE record names a string of the payload. */
  ghost predicate FileNamesValid(p: Payload)
  {
    forall k | 0 <= k < |p.records| && p.records[k].tag == FILE :: p.ValidOffset(p.records[k].FileName())
  }

  /** `fileByName(name)`: the first FILE record whose name equals `name`. */
  method FileByName(p: Payload, name: string) returns (r: Option<nat>)
    requires p.StringsValid() && FileNamesValid(p) && IsCStr(name)
    ensures r.Some? ==> r.value < |p.records| && p.records[r.value].tag == FILE
    ensures r.Some? ==> NamedFile(p, p.records[r.value], name)
    ensures r.Some? ==> forall k | 0 <= k < r.value && p.records[k].tag == FILE :: !NamedFile(p, p.records[k], name)
    ensures r.None? ==> forall k | 0 <= k < |p.records| && p.records[k].tag == FILE :: !NamedFile(p, p.records[k], name)
  {
    for i := 0 to |p.records|
      invariant forall k | 0 <= k < i && p.records[k].tag == FILE :: !NamedFile(p, p.records[k], name)
    {
      var rec := p.records[i];
      if rec.tag == FILE {
        var same := CStrEq(p.StringAt(rec.FileName()), name);
        if same {
          return Some(i);
        }
      }
    }
    return None;
  }

  /** The exact sum of the sizes of the records tagged `tag`. */
  function SizeSum(rs: seq<Record>, tag: Tag): (total: nat)
  {
    if rs == [] then 0
    else SizeSum(rs[..|rs| - 1], tag) + (if rs[|rs| - 1].tag == tag then rs[|rs| - 1].size else 0)
  }

  /** The sum over a concatenation is the sum of the sums. */
  lemma {:induction false} SizeSumAppend(a: seq<Record>, b: seq<Record>, tag: Tag)
    ensures SizeSum(a + b, tag) == SizeSum(a, tag) + SizeSum(b, tag)
    decreases |b|
  {
    if b == [] {
      assert a + b == a;
    } else {
      assert (a + b)[..|a + b| - 1] == a + b[..|b| - 1];
      SizeSumAppend(a, b[..|b| - 1], tag);
    }
  }

  /** Records of other tags contribute nothing. */
  lemma {:induction false} SizeSumNone(rs: seq<Record>, tag: Tag)
    requires forall k | 0 <= k < |rs| :: rs[k].tag != tag
    ensures SizeSum(rs, tag) == 0
  {
    if rs != [] {
      SizeSumNone(rs[..|rs| - 1], tag);
    }
  }

  /** `sum(tag)`: the `usize` total of the sizes of the records tagged `tag`,
      which is the exact sum reduced modulo 2^64. */
  method Sum(p: Payload, tag: Tag) returns (total: U64)
    ensures total == SizeSum(p.records, tag) % U64_LIMIT
    ensures SizeSum(p.records, tag) < U64_LIMIT ==> total == SizeSum(p.records, tag)
  {
    total := 0;
    for i := 0 to |p.records|
      invariant total == SizeSum(p.records[..i], tag) % U64_LIMIT
    {
      var r := p.records[i];
      assert p.records[..i + 1][..i] == p.records[..i];
      if r.tag == tag {
        ModShift(SizeSum(p.records[..i], tag) + r.size, SizeSum(p.records[..i], tag) / U64_LIMIT, U64_LIMIT);
        total := (total + r.size) % U64_LIMIT;
      }
    }
    assert p.records[..|p.records|] == p.records;
  }

  /** `find(size)`: the first FREE record of at least `size` bytes, or the
      default record (FREE, empty) when none fits. */
  method Find(p: Payload, size: U64) returns (r: Record)
    ensures r == DEFAULT_RECORD || (r.tag == FREE && r.size >= size)
    ensures (exists k | 0 <= k < |p.records| :: p.records[k].tag == FREE && p.records[k].size >= size) ==>
      exists k | 0 <= k < |p.records| :: p.records[k] == r
        && (forall j | 0 <= j < k :: !(p.records[j].tag == FREE && p.records[j].size >= size))
    ensures (forall k | 0 <= k < |p.records| :: !(p.records[k].tag == FREE && p.records[k].size >= size)) ==> r == DEFAULT_RECORD
    ensures size > 0 ==> (r.Empty() <==> forall k | 0 <= k < |p.records| :: !(p.records[k].tag == FREE && p.records[k].size >= size))
  {
    for i := 0 to |p.records|
      invariant forall k | 0 <= k < i :: !(p.records[k].tag == FREE && p.records[k].size >= size)
    {
      if p.records[i].tag == FREE && p.records[i].size >= size {
        return p.records[i];
      }
    }
    return DEFAULT_RECORD;
  }

  /** The running `(start, end)` pair of `usableRange`. */
  datatype Span = Span(start: U64, end: U64)

  /** One step of the `usableRange` loop. A start of 0 reads as "not set yet". */
  function UsableStep(acc: Span, r: Record): (out: Span)
    ensures r.tag != FREE ==> out == acc
  {
    if r.tag != FREE then acc
    else
      var start := if r.start < acc.start || acc.start == 0 then r.start else acc.start;
      var end := if r.End() > acc.end then r.End() else acc.end;
      Span(start, end)
  }

  /** The loop of `usableRange` over the first records, as a left fold. */
  function UsableFold(rs: seq<Record>): (acc: Span)
  {
    if rs == [] then Span(0, 0) else UsableStep(UsableFold(rs[..|rs| - 1]), rs[|rs| - 1])
  }

  /** `usableRange<R>()`: the range `{start, end - start}` of the fold, the
      length computed in `usize`. */
  method UsableRange(p: Payload) returns (start: U64, size: U64)
    ensures start == UsableFold(p.records).start
    ensures size == ToUsize(UsableFold(p.records).end - start)
  {
    var s: U64, e: U64 := 0, 0;
    for i := 0 to |p.records|
      invariant Span(s, e) == UsableFold(p.records[..i])
    {
      var r := p.records[i];
      assert p.records[..i + 1][..i] == p.records[..i];
      if r.tag == FREE {
        if r.start < s || s == 0 {
          s := r.start;
        }
        if r.End() > e {
          e := r.End();
        }
      }
    }
    assert p.records[..|p.records|] == p.records;
    start, size := s, ToUsize(e - s);
  }

  ghost predicate HasFree(rs: seq<Record>)
  {
    exists k | 0 <= k < |rs| :: rs[k].tag == FREE
  }

  /** Without FREE records the range is `{0, 0}`. */
  lemma {:induction false} UsableFoldNoFree(rs: seq<Record>)
    requires !HasFree(rs)
    ensures UsableFold(rs) == Span(0, 0)
  {
    if rs != [] {
      var init := rs[..|rs| - 1];
      assert !HasFree(init) by {
        forall k | 0 <= k < |init| ensures init[k].tag != FREE {
          assert init[k] == rs[k];
        }
      }
      UsableFoldNoFree(init);
    }
  }

  /** When no FREE record starts at 0, the range starts at the smallest FREE
      start and ends at the largest FREE end. */
  lemma {:induction false} UsableFoldBounds(rs: seq<Record>)
    requires HasFree(rs)
    requires forall k | 0 <= k < |rs| && rs[k].tag == FREE :: rs[k].start != 0
    ensures exists k | 0 <= k < |rs| && rs[k].tag == FREE :: rs[k].start == UsableFold(rs).start
    ensures forall k | 0 <= k < |rs| && rs[k].tag == FREE :: UsableFold(rs).start <= rs[k].start
    ensures forall k | 0 <= k < |rs| && rs[k].tag == FREE :: rs[k].End() <= UsableFold(rs).end
    ensures UsableFold(rs).end == 0 || exists k | 0 <= k < |rs| && rs[k].tag == FREE :: rs[k].End() == UsableFold(rs).end
  {
    var init := rs[..|rs| - 1];
    var last := rs[|rs| - 1];
    assert forall k | 0 <= k < |init| :: init[k] == rs[k];
    if HasFree(init) {
      UsableFoldBounds(init);
    } else {
      UsableFoldNoFree(init);
    }
  }

  /** The quirk of the 0 sentinel: a FREE record at address 0 is forgotten
      as soon as a later FREE record starts elsewhere. */
  lemma UsableFoldForgetsZeroStart()
    ensures UsableFold([Record(FREE, 0, 0, 10, 0), Record(FREE, 0, 100, 5, 0)]) == Span(100, 105)
  {
    var rs := [Record(FREE, 0, 0, 10, 0), Record(FREE, 0, 100, 5, 0)];
    assert rs[..1] == [rs[0]] && [rs[0]][..0] == [];
    assert UsableFold(rs[..1]) == Span(0, 10);
  }

  /** `valid(magic, payload)`: both the magic passed to the entry point and
      the payload's own magic are COOLBOOT. */
  function Valid(magic: U32, p: Payload): (r: bool)
    ensures r <==> magic == COOLBOOT && p.magic == COOLBOOT
  {
    if magic != COOLBOOT then false
    else if p.magic != COOLBOOT then false
    else true
  }
}
