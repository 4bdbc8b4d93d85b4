/** `StringPiece` (base/StringPiece.h): a non-owning view of `length_`
    bytes starting at `ptr_`. The memory a piece points into is modelled
    as the sequence of bytes of the underlying buffer together with the
    offset of `ptr_` in it; the null pointer is the empty buffer at
    offset 0. */
module StringPieces {

  /** `strlen`: the position of the first NUL byte. */
  function CStrLen(str: seq<char>): (r: nat)
    requires '\0' in str
    ensures r < |str| && str[r] == '\0'
    ensures forall i :: 0 <= i < r ==> str[i] != '\0'
  {
    if str[0] == '\0' then 0 else 1 + CStrLen(str[1..])
  }

  /** `memcmp(p + i, q + j, n) == 0`: the two runs of `n` bytes agree
      byte by byte. */
  function MemEqual(p: seq<char>, i: nat, q: seq<char>, j: nat, n: nat): (r: bool)
    requires i + n <= |p| && j + n <= |q|
    ensures r <==> p[i..i + n] == q[j..j + n]
    decreases n
  {
    if n == 0 then true
    else if p[i] != q[j] then
      assert p[i..i + n][0] != q[j..j + n][0];
      false
    else
      var rest := MemEqual(p, i + 1, q, j + 1, n - 1);
      assert p[i..i + n] == [p[i]] + p[i + 1..i + n];
      assert q[j..j + n] == [q[j]] + q[j + 1..j + n];
      assert p[i..i + n] == q[j..j + n] ==> p[i..i + n][1..] == q[j..j + n][1..];
      rest
  }

  class StringPiece {
    var buf: seq<char>
    var ptr: int
    var length: int

    /** The piece lies inside its buffer. */
    ghost predicate Valid()
      reads this
    {
      0 <= ptr && 0 <= length && ptr + length <= |buf|
    }

    /** `as_string()`: the bytes the piece covers. */
    function AsString(): (r: string)
      reads this
      requires Valid()
      ensures |r| == length
      ensures forall k :: 0 <= k < length ==> r[k] == buf[ptr + k]
    {
      buf[ptr..ptr + length]
    }

    /** `StringPiece()`: the null pointer, no bytes. */
    constructor ()
      ensures Valid() && AsString() == []
      ensures buf == [] && ptr == 0
    {
      buf, ptr, length := [], 0, 0;
    }

    /** `StringPiece(const char*)` (and its `unsigned char*` twin): the
        bytes before the terminating NUL. */
    constructor FromCString(str: seq<char>)
      requires '\0' in str
      ensures Valid()
      ensures AsString() == str[..CStrLen(str)]
      ensures '\0' !in AsString()
    {
      buf, ptr, length := str, 0, CStrLen(str);
    }

    /** `StringPiece(const std::string&)`: a view of the whole string, NUL
        bytes included, so `as_string()` gives the string back. */
    constructor FromString(str: string)
      ensures Valid() && AsString() == str
    {
      buf, ptr, length := str, 0, |str|;
      assert str[0..|str|] == str;
    }

    /** `StringPiece(const char* offset, int len)`: `len` bytes from
        `offset` on, which the caller guarantees are readable. */
    constructor Window(buffer: seq<char>, offset: int, len: int)
      requires 0 <= offset && 0 <= len && offset + len <= |buffer|
      ensures Valid() && AsString() == buffer[offset..offset + len]
    {
      buf, ptr, length := buffer, offset, len;
    }

    /** `size()`. */
    function Size(): (r: int)
      reads this
      requires Valid()
      ensures r == |AsString()|
    {
      length
    }

    /** `empty()`. */
    predicate IsEmpty()
      reads this
      requires Valid()
      ensures IsEmpty() <==> AsString() == []
    {
      length == 0
    }

    /** `operator[](i)`. */
    function At(i: int): (r: char)
      reads this
      requires Valid() && 0 <= i < length
      ensures r == AsString()[i]
    {
      buf[ptr + i]
    }

    /** `clear()`: back to the null pointer. */
    method Clear()
      modifies this
      ensures Valid() && AsString() == [] && IsEmpty()
      ensures buf == [] && ptr == 0
    {
      buf, ptr, length := [], 0, 0;
    }

    /** `set(const char* buffer, int len)` and `set(const void*, int)`. */
    method Set(buffer: seq<char>, offset: int, len: int)
      requires 0 <= offset && 0 <= len && offset + len <= |buffer|
      modifies this
      ensures Valid() && AsString() == buffer[offset..offset + len] && Size() == len
      ensures buf == buffer && ptr == offset
    {
      buf, ptr, length := buffer, offset, len;
    }

    /** `set(const char* str)`. */
    method SetCString(str: seq<char>)
      requires '\0' in str
      modifies this
      ensures Valid() && AsString() == str[..CStrLen(str)]
      ensures buf == str && ptr == 0
    {
      buf, ptr, length := str, 0, CStrLen(str);
    }

    /** `remove_prefix(n)`: the pointer moves `n` bytes on. */
    method RemovePrefix(n: int)
      requires Valid() && 0 <= n <= length
      modifies this
      ensures Valid() && AsString() == old(AsString())[n..]
      ensures Size() == old(Size()) - n && buf == old(buf)
    {
      ptr := ptr + n;
      length := length - n;
    }

    /** `remove_suffix(n)`: the last `n` bytes leave the view. */
    method RemoveSuffix(n: int)
      requires Valid() && 0 <= n <= length
      modifies this
      ensures Valid() && AsString() == old(AsString())[..old(Size()) - n]
      ensures Size() == old(Size()) - n && buf == old(buf) && ptr == old(ptr)
    {
      length := length - n;
    }

    /** `operator==`: equal lengths and equal bytes, wherever they live. */
    predicate Equals(x: StringPiece)
      reads this, x
      requires Valid() && x.Valid()
      ensures Equals(x) <==> AsString() == x.AsString()
    {
      length == x.length && MemEqual(buf, ptr, x.buf, x.ptr, length)
    }

    /** `operator!=`. */
    predicate NotEquals(x: StringPiece)
      reads this, x
      requires Valid() && x.Valid()
      ensures NotEquals(x) <==> AsString() != x.AsString()
    {
      !Equals(x)
    }

    /** `starts_with(x)`: `x` is a prefix of this piece. */
    predicate StartsWith(x: StringPiece)
      reads this, x
      requires Valid() && x.Valid()
      ensures StartsWith(x) <==> exists rest :: AsString() == x.AsString() + rest
    {
      var r := length >= x.length && MemEqual(buf, ptr, x.buf, x.ptr, x.length);
      assert r ==> AsString() == x.AsString() + AsString()[x.length..] by {
        if r {
          assert AsString()[..x.length] == buf[ptr..ptr + x.length];
        }
      }
      assert (exists rest :: AsString() == x.AsString() + rest) ==> r by {
        if rest :| AsString() == x.AsString() + rest {
          assert AsString()[..x.length] == x.AsString();
          assert AsString()[..x.length] == buf[ptr..ptr + x.length];
        }
      }
      r
    }
  }
}
