/** A Slice is a borrowed view of a byte range: where the bytes start in some
    memory the slice does not own, and how many of them it covers. */
module Slices {

  newtype byte = x: int | 0 <= x < 256

  /** Length of the longest common prefix of a and b, as the position of the
      first byte where they differ (or the end of the shorter one). */
  function CommonPrefix(a: seq<byte>, b: seq<byte>): (k: nat)
    ensures k <= |a| && k <= |b|
    ensures a[..k] == b[..k]
    ensures k < |a| && k < |b| ==> a[k] != b[k]
  {
    if |a| == 0 || |b| == 0 || a[0] != b[0] then 0
    else
      var k := 1 + CommonPrefix(a[1..], b[1..]);
      assert a[..k] == [a[0]] + a[1..][..k - 1];
      assert b[..k] == [b[0]] + b[1..][..k - 1];
      k
  }

  lemma {:induction false} CommonPrefixSymmetric(a: seq<byte>, b: seq<byte>)
    ensures CommonPrefix(a, b) == CommonPrefix(b, a)
  {
    if |a| == 0 || |b| == 0 || a[0] != b[0] {
    } else {
      CommonPrefixSymmetric(a[1..], b[1..]);
    }
  }

  /** memcmp over the first n bytes: zero when they agree, otherwise the
      difference of the first pair of bytes that differ, compared unsigned.
      (The C library promises only the sign; this model picks one value.) */
  function Memcmp(a: seq<byte>, b: seq<byte>, n: nat): (r: int)
    requires n <= |a| && n <= |b|
    ensures r == 0 <==> a[..n] == b[..n]
    ensures var k := CommonPrefix(a, b);
      k < n ==> (r < 0 <==> a[k] < b[k]) && (r > 0 <==> a[k] > b[k])
  {
    var k := CommonPrefix(a, b);
    if k >= n then
      assert a[..n] == a[..k][..n];
      assert b[..n] == b[..k][..n];
      0
    else
      assert a[..n][k] != b[..n][k];
      a[k] as int - b[k] as int
  }

  function Sign(x: int): int
  {
    if x < 0 then -1 else if x > 0 then 1 else 0
  }

  class Slice {
    // The memory the slice points into, the start of the view within it
    // (the data pointer), and the number of viewed bytes.
    var mem: seq<byte>
    var start: nat
    var size: nat

    ghost predicate Valid()
      reads this
    {
      start + size <= |mem|
    }

    /** The viewed bytes. */
    ghost function View(): seq<byte>
      reads this
      requires Valid()
    {
      mem[start..start + size]
    }

    /** Slice(): an empty view of the empty string. */
    constructor Empty()
      ensures Valid() && View() == [] && size == 0
    {
      mem, start, size := [], 0, 0;
    }

    /** Slice(d, n): the first n bytes at d. */
    constructor FromBytes(d: seq<byte>, n: nat)
      requires n <= |d|
      ensures Valid() && View() == d[..n] && size == n
    {
      mem, start, size := d, 0, n;
    }

    /** Slice(s) for a std::string s: all of its bytes. */
    constructor FromString(s: seq<byte>)
      ensures Valid() && View() == s && size == |s|
    {
      mem, start, size := s, 0, |s|;
    }

    /** Slice(s) for a NUL-terminated C string: the bytes before the first NUL. */
    constructor FromCString(s: seq<byte>)
      requires 0 in s
      ensures Valid() && size < |s| && 0 !in View() && View() + [0] == s[..size + 1]
    {
      var n := Strlen(s);
      assert s[..n + 1] == s[..n] + [s[n]];
      mem, start, size := s, 0, n;
    }

    /** The defaulted copy constructor: a second view of the same bytes. */
    constructor Copy(other: Slice)
      requires other.Valid()
      ensures Valid() && View() == other.View()
      ensures mem == other.mem && start == other.start && size == other.size
    {
      mem, start, size := other.mem, other.start, other.size;
    }

    /** The defaulted copy assignment. */
    method Assign(rhs: Slice)
      requires rhs.Valid()
      modifies this
      ensures Valid() && View() == rhs.View()
      ensures mem == rhs.mem && start == rhs.start && size == rhs.size
    {
      mem, start, size := rhs.mem, rhs.start, rhs.size;
    }

    function Size(): (n: nat)
      reads this
      requires Valid()
      ensures n == |View()|
    {
      size
    }

    predicate IsEmpty()
      reads this
      requires Valid()
      ensures IsEmpty() <==> View() == []
    {
      size == 0
    }

    /** operator[]: byte n of the view. */
    function At(n: nat): (c: byte)
      reads this
      requires Valid() && n < size
      ensures c == View()[n]
    {
      mem[start + n]
    }

    /** The viewed bytes, copied out. */
    function ToString(): (s: seq<byte>)
      reads this
      requires Valid()
      ensures |s| == size
      ensures forall i :: 0 <= i < size ==> s[i] == mem[start + i]
      ensures s == View()
    {
      mem[start..start + size]
    }

    /** Narrows the view to the empty string. */
    method Clear()
      modifies this
      ensures Valid() && View() == [] && size == 0
    {
      mem, start, size := [], 0, 0;
    }

    /** Drops the first n bytes of the view. */
    method RemovePrefix(n: nat)
      requires Valid() && n <= size
      modifies this
      ensures Valid() && mem == old(mem)
      ensures size == old(size) - n
      ensures View() == old(View())[n..]
    {
      start := start + n;
      size := size - n;
    }

    /** True iff x's bytes are a prefix of this view's bytes. */
    predicate StartsWith(x: Slice)
      reads this, x
      requires Valid() && x.Valid()
      ensures StartsWith(x) <==> x.size <= size && View()[..x.size] == x.View()
    {
      size >= x.size && Memcmp(ToString(), x.ToString(), x.size) == 0
    }

    /** Three-way lexicographic comparison of the viewed bytes. */
    function Compare(b: Slice): (r: int)
      reads this, b
      requires Valid() && b.Valid()
      ensures r == 0 <==> View() == b.View()
      ensures var k := CommonPrefix(View(), b.View());
        if k < size && k < b.size then
          (r < 0 <==> View()[k] < b.View()[k]) && (r > 0 <==> View()[k] > b.View()[k])
        else
          (r < 0 <==> size < b.size) && (r > 0 <==> size > b.size)
    {
      var minLen := if size < b.size then size else b.size;
      var r := Memcmp(ToString(), b.ToString(), minLen);
      if r == 0 then
        if size < b.size then -1 else if size > b.size then 1 else 0
      else r
    }
  }

  /** Position of the first NUL byte of s: what strlen returns. */
  function Strlen(s: seq<byte>): (n: nat)
    requires 0 in s
    ensures n < |s| && s[n] == 0 && 0 !in s[..n]
  {
    if s[0] == 0 then 0
    else
      var n := 1 + Strlen(s[1..]);
      assert s[..n] == [s[0]] + s[1..][..n - 1];
      n
  }

  /** operator==: same size and the same bytes. */
  predicate Equal(x: Slice, y: Slice)
    reads x, y
    requires x.Valid() && y.Valid()
    ensures Equal(x, y) <==> x.View() == y.View()
  {
    x.size == y.size && Memcmp(x.ToString(), y.ToString(), x.size) == 0
  }

  /** operator!=: the negation of operator==. */
  predicate NotEqual(x: Slice, y: Slice)
    reads x, y
    requires x.Valid() && y.Valid()
    ensures NotEqual(x, y) <==> x.View() != y.View()
    ensures NotEqual(x, y) == !Equal(x, y)
  {
    !Equal(x, y)
  }

  /** Compare is antisymmetric: swapping the operands flips the sign. */
  lemma CompareAntisymmetric(x: Slice, y: Slice)
    requires x.Valid() && y.Valid()
    ensures Sign(x.Compare(y)) == -Sign(y.Compare(x))
  {
    CommonPrefixSymmetric(x.View(), y.View());
  }

  /** Compare reports equality exactly when operator== holds. */
  lemma CompareZeroIffEqual(x: Slice, y: Slice)
    requires x.Valid() && y.Valid()
    ensures x.Compare(y) == 0 <==> Equal(x, y)
  {
  }

  /** Compare puts a proper prefix before the view it starts, and the view
      after it. */
  lemma {:induction false} PrefixComparesLess(x: Slice, p: Slice)
    requires x.Valid() && p.Valid()
    requires x.StartsWith(p) && p.size < x.size
    ensures p.Compare(x) < 0 && x.Compare(p) > 0
  {
    assert forall i :: 0 <= i < p.size ==> p.View()[i] == x.View()[..p.size][i];
  }
}
