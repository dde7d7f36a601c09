/** karm-base/string.h: C-string length, the owned, NUL-terminated `_String`
    and case-insensitive comparison. Units are `char`; every rune is taken to
    be one ASCII unit. */
module Strings {
  import opened Base

  /** `strLen(str)`: counts units up to the first NUL. */
  method StrLen(s: seq<char>) returns (n: nat)
    requires IsCStr(s)
    ensures n < |s| && s[n] == '\0'
    ensures forall k | 0 <= k < n :: s[k] != '\0'
    ensures n == CLen(s)
  {
    n := 0;
    while s[n] != '\0'
      invariant n <= CLen(s)
      decreases CLen(s) - n
    {
      n := n + 1;
    }
  }

  /** Fresh storage of `len + 1` units holding `src[..len]` and a NUL. */
  method Alloc(src: seq<char>, len: nat) returns (b: array<char>)
    requires len <= |src|
    ensures fresh(b) && b.Length == len + 1
    ensures b[..len] == src[..len] && b[len] == '\0'
  {
    b := new char[len + 1];
    b[len] := '\0';
    for i := 0 to len
      invariant b[len] == '\0'
      invariant b[..i] == src[..i]
    {
      b[i] := src[i];
    }
  }

  /** `_String<E>`: an owned unit buffer and its length; a moved-from string
      holds no buffer. */
  class OwnedString {
    var buf: array?<char>
    var len: nat

    ghost predicate Valid()
      reads this
    {
      (buf == null ==> len == 0) && (buf != null ==> len <= buf.Length)
    }

    /** The buffer ends with a NUL right after the units. */
    ghost predicate Terminated()
      reads this, buf
    {
      buf != null && len < buf.Length && buf[len] == '\0'
    }

    /** `str()` / `units()`: the `len` units of the buffer. */
    function Units(): (r: seq<char>)
      reads this, buf
      requires Valid()
      ensures |r| == len
      ensures buf != null ==> r == buf[..len]
    {
      if buf == null then [] else buf[..len]
    }

    /** `_String()`: the empty string, delegating to `_String("", 0)`. */
    constructor Empty()
      ensures Valid() && Terminated() && fresh(buf)
      ensures len == 0 && Units() == []
    {
      var b := Alloc("", 0);
      buf, len := b, 0;
    }

    /** `_String(MOVE, buf, len)`: adopts a buffer without copying. */
    constructor Adopt(b: array<char>, l: nat)
      requires l <= b.Length
      ensures Valid() && buf == b && len == l
    {
      buf, len := b, l;
    }

    /** `_String(buf, len)`: copies `len` units into fresh storage and terminates them. */
    constructor FromUnits(src: seq<char>, l: nat)
      requires l <= |src|
      ensures Valid() && Terminated() && fresh(buf)
      ensures len == l && Units() == src[..l]
    {
      var b := Alloc(src, l);
      buf, len := b, l;
    }

    /** `_String(cstr)`: the units before the first NUL. */
    constructor FromCStr(cstr: seq<char>)
      requires IsCStr(cstr)
      ensures Valid() && Terminated() && fresh(buf)
      ensures len == CLen(cstr) && Units() == cstr[..CLen(cstr)]
    {
      var l := StrLen(cstr);
      var b := Alloc(cstr, l);
      buf, len := b, l;
    }

    /** `_String(const &other)`: equal length and contents, in a fresh buffer. */
    constructor Copy(other: OwnedString)
      requires other.Valid()
      ensures Valid() && Terminated() && fresh(buf)
      ensures len == other.len && Units() == other.Units()
    {
      var b := Alloc(other.Units(), other.len);
      buf, len := b, other.len;
    }

    /** `_String(&&other)`: takes the buffer and leaves `other` empty and bufferless. */
    constructor Move(other: OwnedString)
      requires other.Valid()
      modifies other
      ensures Valid() && other.Valid()
      ensures buf == old(other.buf) && len == old(other.len)
      ensures other.buf == null && other.len == 0
    {
      buf, len := other.buf, other.len;
      new;
      other.buf, other.len := null, 0;
    }

    /** `operator=(const &other)`: a fresh copy of `other` replaces the contents. */
    method CopyAssign(other: OwnedString)
      requires Valid() && other.Valid()
      modifies this
      ensures Valid() && Terminated() && fresh(buf)
      ensures len == old(other.len) && Units() == old(other.Units())
    {
      var b := Alloc(other.Units(), other.len);
      buf, len := b, other.len;
    }

    /** `operator=(&&other)`: swaps buffers and lengths. */
    method MoveAssign(other: OwnedString)
      requires Valid() && other.Valid()
      modifies this, other
      ensures Valid() && other.Valid()
      ensures buf == old(other.buf) && len == old(other.len)
      ensures other.buf == old(buf) && other.len == old(len)
    {
      buf, other.buf := other.buf, buf;
      len, other.len := other.len, len;
    }
  }

  /** `tolower` on ASCII: upper-case letters map to lower case, all else is kept. */
  function ToLower(c: char): (r: char)
    ensures 'A' <= c <= 'Z' ==> r as int == c as int + 32
    ensures !('A' <= c <= 'Z') ==> r == c
  {
    if 'A' <= c <= 'Z' then (c as int + 32) as char else c
  }

  /** Equal length and every pair of units equal up to letter case. */
  ghost predicate SameIgnoringCase(a: seq<char>, b: seq<char>)
  {
    |a| == |b| && forall i | 0 <= i < |a| :: a[i] == b[i] || ToLower(a[i]) == ToLower(b[i])
  }

  /** Equality up to case is an equivalence: it is reflexive, symmetric and transitive. */
  lemma SameIgnoringCaseEquivalence(a: seq<char>, b: seq<char>, c: seq<char>)
    ensures SameIgnoringCase(a, a)
    ensures SameIgnoringCase(a, b) ==> SameIgnoringCase(b, a)
    ensures SameIgnoringCase(a, b) && SameIgnoringCase(b, c) ==> SameIgnoringCase(a, c)
  {
  }

  /** `eqCi(a, b)`: different lengths differ; otherwise walks both strings and
      fails at the first pair of runes that differ even after `tolower`. */
  method EqCi(a: seq<char>, b: seq<char>) returns (r: bool)
    ensures r <==> SameIgnoringCase(a, b)
  {
    if |a| != |b| {
      return false;
    }
    var i := 0;
    while i < |a|
      invariant i <= |a|
      invariant forall k | 0 <= k < i :: a[k] == b[k] || ToLower(a[k]) == ToLower(b[k])
    {
      var aRune, bRune := a[i], b[i];
      i := i + 1;
      if aRune != bRune && ToLower(aRune) != ToLower(bRune) {
        return false;
      }
    }
    return true;
  }
}
