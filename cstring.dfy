/** The `str` class: an owned, NUL-terminated `char` buffer with hand-written copy and move
    constructors, copy-and-swap assignment and concatenation, together with the C library
    routines it is built on (`strlen`, `memcpy`). A C string is an array of characters whose
    meaning is the part before the first NUL. */
module CString {

  const NUL: char := '\0'

  /** `strlen` as a value: the index of the first NUL. */
  function CLen(s: seq<char>): (n: nat)
    requires NUL in s
    ensures n < |s| && s[n] == NUL
    ensures NUL !in s[..n]
  {
    if s[0] == NUL then 0
    else
      assert s == [s[0]] + s[1..];
      1 + CLen(s[1..])
  }

  /** The characters a C string stands for: those before its terminator. */
  function CContent(s: seq<char>): (c: seq<char>)
    requires NUL in s
    ensures NUL !in c
  {
    s[..CLen(s)]
  }

  /** A buffer of exactly the size `str` allocates: its one NUL is its last cell. */
  predicate ExactlyTerminated(s: seq<char>) {
    |s| > 0 && s[|s| - 1] == NUL && NUL !in s[..|s| - 1]
  }

  lemma ExactlyTerminatedContent(s: seq<char>)
    requires ExactlyTerminated(s)
    ensures NUL in s && CLen(s) == |s| - 1 && CContent(s) == s[..|s| - 1]
  {
    assert s[|s| - 1] in s;
  }

  /** The length of a concatenation of a NUL-free prefix and a C string. */
  lemma {:induction false} CLenAppend(a: seq<char>, b: seq<char>)
    requires NUL !in a && NUL in b
    ensures NUL in a + b && CLen(a + b) == |a| + CLen(b)
  {
    assert (a + b)[|a| + CLen(b)] == NUL;
    if a == [] {
      assert a + b == b;
    } else {
      assert a == [a[0]] + a[1..];
      assert (a + b)[0] == a[0] && (a + b)[1..] == a[1..] + b;
      CLenAppend(a[1..], b);
    }
  }

  /** What such a concatenation stands for. */
  lemma CContentAppend(a: seq<char>, b: seq<char>)
    requires NUL !in a && NUL in b
    ensures NUL in a + b && CContent(a + b) == a + CContent(b)
  {
    CLenAppend(a, b);
    assert (a + b)[..|a| + CLen(b)] == a + b[..CLen(b)];
  }

  /** `strlen(p)`: scans for the terminator. */
  method StrLen(p: array<char>) returns (n: nat)
    requires NUL in p[..]
    ensures n == CLen(p[..])
  {
    n := 0;
    while p[n] != NUL
      invariant n <= CLen(p[..])
      decreases CLen(p[..]) - n
      invariant NUL !in p[..n]
    {
      assert p[..n + 1] == p[..n] + [p[n]];
      n := n + 1;
    }
  }

  /** `memcpy(dst + offset, src, count)`: copies the first `count` cells of `src` into `dst`
      from `offset` on, leaving the rest of `dst` alone. The buffers must not overlap. */
  method Memcpy(dst: array<char>, offset: nat, src: array<char>, count: nat)
    requires offset + count <= dst.Length && count <= src.Length && dst != src
    modifies dst
    ensures dst[..] == old(dst[..offset]) + src[..count] + old(dst[offset + count..])
  {
    var i := 0;
    while i < count
      invariant 0 <= i <= count
      invariant dst[..offset] == old(dst[..offset])
      invariant dst[offset..offset + i] == src[..i]
      invariant dst[offset + count..] == old(dst[offset + count..])
    {
      dst[offset + i] := src[i];
      assert dst[offset..offset + i + 1] == dst[offset..offset + i] + [dst[offset + i]];
      i := i + 1;
    }
    assert dst[..] == dst[..offset] + dst[offset..offset + count] + dst[offset + count..];
  }

  /** The buffer `operator+` fills: `a`'s characters without their NUL, then all of `b`. */
  method ConcatBuffers(a: array<char>, b: array<char>) returns (buffer: array<char>)
    requires ExactlyTerminated(a[..]) && ExactlyTerminated(b[..])
    ensures fresh(buffer)
    ensures buffer[..] == a[..a.Length - 1] + b[..]
  {
    ExactlyTerminatedContent(a[..]);
    ExactlyTerminatedContent(b[..]);
    var size1 := StrLen(a);
    var size2 := StrLen(b);
    buffer := new char[size1 + size2 + 1];
    Memcpy(buffer, 0, a, size1);
    ghost var first := buffer[..];
    assert first[..size1] == a[..size1];
    Memcpy(buffer, size1, b, size2 + 1);
    assert buffer[..] == first[..size1] + b[..size2 + 1] + first[size1 + size2 + 1..];
    assert b[..size2 + 1] == b[..];
  }

  class Str {
    /** The owned buffer; null once the object has been moved from. */
    var data: array?<char>

    /** Every buffer a `str` owns is exactly `strlen + 1` cells long. */
    ghost predicate Valid()
      reads this, data
    {
      data != null ==> ExactlyTerminated(data[..])
    }

    /** The string held: the characters before the terminator. */
    ghost function Content(): (c: seq<char>)
      reads this, data
      requires Valid() && data != null
      ensures NUL !in c && |c| == data.Length - 1
    {
      ExactlyTerminatedContent(data[..]);
      CContent(data[..])
    }

    /** `str(const char* d)`: allocates `strlen(d) + 1` cells and copies `d` with its terminator. */
    constructor (d: array<char>)
      requires NUL in d[..]
      ensures Valid() && data != null && fresh(data)
      ensures data.Length == CLen(d[..]) + 1
      ensures Content() == CContent(d[..])
    {
      var size := StrLen(d);
      size := size + 1;
      var buffer := new char[size];
      Memcpy(buffer, 0, d, size);
      data := buffer;
      new;
      assert data[..] == d[..size];
      assert d[..size][..size - 1] == d[..size - 1];
      ExactlyTerminatedContent(data[..]);
    }

    /** `str(const str& rhs)`: a fresh buffer with the same content; `rhs` is only read. */
    constructor Copy(rhs: Str)
      requires rhs.Valid() && rhs.data != null
      ensures Valid() && data != null && fresh(data)
      ensures data.Length == rhs.data.Length
      ensures Content() == rhs.Content()
    {
      ExactlyTerminatedContent(rhs.data[..]);
      var size := StrLen(rhs.data);
      size := size + 1;
      var buffer := new char[size];
      Memcpy(buffer, 0, rhs.data, size);
      data := buffer;
      new;
      assert data[..] == rhs.data[..];
    }

    /** `str(str&& rhs)`: takes over `rhs`'s buffer and leaves `rhs` empty-handed. */
    constructor Move(rhs: Str)
      requires rhs.Valid()
      modifies rhs
      ensures data == old(rhs.data) && rhs.data == null
      ensures Valid() && rhs.Valid()
      ensures data != null ==> Content() == old(rhs.Content())
    {
      data := rhs.data;
      new;
      rhs.data := null;
    }

    /** The body of `operator=(str rhs)`: swaps buffers with the by-value parameter, which then
        takes this object's old buffer away to be destroyed. */
    method Swap(rhs: Str)
      requires Valid() && rhs.Valid() && rhs != this
      modifies this, rhs
      ensures data == old(rhs.data) && rhs.data == old(data)
      ensures Valid() && rhs.Valid()
    {
      data, rhs.data := rhs.data, data;
    }

    /** `x = other` for an lvalue `other`: the parameter is copy-constructed, then swapped in.
        Afterwards this object owns a fresh buffer with `other`'s old content, also when
        `other` is this object. Returns this object. */
    method CopyAssign(other: Str) returns (self: Str)
      requires Valid() && other.Valid() && other.data != null
      modifies this
      ensures self == this
      ensures Valid() && data != null && fresh(data)
      ensures Content() == old(other.Content())
    {
      var parameter := new Str.Copy(other);
      Swap(parameter);
      self := this;
    }

    /** `x = std::move(other)`: the parameter is move-constructed, then swapped in. This object
        ends up owning `other`'s old buffer, and `other` (if it is another object) owns none.
        Self-move-assignment gives the buffer back, so nothing changes. Returns this object. */
    method MoveAssign(other: Str) returns (self: Str)
      requires Valid() && other.Valid()
      modifies this, other
      ensures self == this
      ensures Valid() && other.Valid()
      ensures data == old(other.data)
      ensures other != this ==> other.data == null
    {
      var parameter := new Str.Move(other);
      Swap(parameter);
      self := this;
    }

    /** `operator+`: a new `str` holding this content followed by `rhs`'s, in a buffer of
        `strlen(data) + strlen(rhs.data) + 1` cells. Neither operand changes. */
    method Concat(rhs: Str) returns (result: Str)
      requires Valid() && data != null && rhs.Valid() && rhs.data != null
      ensures fresh(result) && fresh(result.data)
      ensures result.Valid() && result.data != null
      ensures result.data.Length == |Content()| + |rhs.Content()| + 1
      ensures result.data[|Content()| + |rhs.Content()|] == NUL
      ensures result.Content() == Content() + rhs.Content()
    {
      var newData := ConcatBuffers(data, rhs.data);
      CContentAppend(Content(), rhs.data[..]);
      ExactlyTerminatedContent(rhs.data[..]);
      result := new Str(newData);
    }
  }
}
