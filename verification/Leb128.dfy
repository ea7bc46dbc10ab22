// The byte readers of src/dwarf/cfi.c: LEB128 in both signs and fixed-width
// little-endian words.
//
// A C cursor and its end pointer are two indices into the byte sequence; each
// reader returns the advanced cursor.
module Leb128 {
  import opened Machine

  /** The longest group that fits: ten bytes carry seventy bits. */
  const MAX_GROUP: nat := 10

  /** Number of bytes up to and including the first byte below 0x80; 0 when
      there is none. */
  function Span(s: seq<byte>): (n: nat)
    ensures n <= |s|
  {
    if s == [] then 0
    else if s[0] < 128 then 1
    else
      var n := Span(s[1..]);
      if n == 0 then 0 else n + 1
  }

  /** `s` begins with `n - 1` continuation bytes and then a final byte. */
  ghost predicate IsGroup(s: seq<byte>, n: nat) {
    && 1 <= n <= |s|
    && s[n - 1] < 128
    && (forall i :: 0 <= i < n - 1 ==> s[i] >= 128)
  }

  lemma {:induction false} SpanIsGroup(s: seq<byte>)
    ensures Span(s) != 0 ==> IsGroup(s, Span(s))
    ensures Span(s) == 0 ==> forall i :: 0 <= i < |s| ==> s[i] >= 128
  {
    if s != [] && s[0] >= 128 {
      SpanIsGroup(s[1..]);
      assert forall i :: 1 <= i < |s| ==> s[i] == s[1..][i - 1];
    }
  }

  lemma GroupSpan(s: seq<byte>, n: nat)
    requires IsGroup(s, n)
    ensures Span(s) == n
  {
    SpanIsGroup(s);
    if Span(s) != 0 {
      assert s[Span(s) - 1] < 128;
    }
  }

  /** The little-endian base-128 number held in the low seven bits. */
  function Base128(s: seq<byte>): nat {
    if s == [] then 0 else s[0] % 128 + 128 * Base128(s[1..])
  }

  lemma {:induction false} Base128Snoc(s: seq<byte>, b: byte)
    ensures Base128(s + [b]) == Base128(s) + (b % 128) * Pow2(7 * |s|)
  {
    if s == [] {
      assert s + [b] == [b];
      assert Base128([b]) == b % 128 + 128 * Base128([]);
    } else {
      assert (s + [b])[1..] == s[1..] + [b];
      Base128Snoc(s[1..], b);
      Pow2Seven(7 * |s[1..]|);
      var p := Pow2(7 * |s[1..]|);
      assert 128 * ((b % 128) * p) == (b % 128) * (128 * p);
    }
  }

  lemma {:induction false} Base128Bound(s: seq<byte>)
    ensures Base128(s) < Pow2(7 * |s|)
  {
    if s != [] {
      Base128Bound(s[1..]);
      Pow2Seven(7 * |s[1..]|);
    }
  }

  /** The same number read with the sign bit of its last byte extended. */
  function SignedBase128(s: seq<byte>): int
    requires s != []
  {
    if s[|s| - 1] % 128 >= 64 then Base128(s) - Pow2(7 * |s|) else Base128(s)
  }

  datatype Read<+V> = Read(value: V, len: nat)

  /** What `read_uleb` returns: the value modulo 2^64 and the bytes consumed. */
  function Uleb(s: seq<byte>): (r: Option<Read<u64>>)
    ensures r.Some? ==> 1 <= r.value.len <= |s| && r.value.len <= 10
  {
    var n := Span(s);
    if n == 0 || n > MAX_GROUP then None else Some(Read(Wrap(Base128(s[..n])), n))
  }

  function Sleb(s: seq<byte>): (r: Option<Read<i64>>)
    ensures r.Some? ==> 1 <= r.value.len <= |s| && r.value.len <= 10
  {
    var n := Span(s);
    if n == 0 || n > MAX_GROUP then None else Some(Read(ToSigned(SignedBase128(s[..n])), n))
  }

  /** Both readers accept exactly the inputs with a final byte among the first
      ten, and consume the bytes up to it. */
  lemma ReadersAccept(s: seq<byte>)
    ensures Uleb(s).Some? <==> exists n :: 1 <= n <= 10 && IsGroup(s, n)
    ensures Sleb(s).Some? <==> exists n :: 1 <= n <= 10 && IsGroup(s, n)
    ensures Uleb(s).Some? ==> IsGroup(s, Uleb(s).value.len)
    ensures Sleb(s).Some? ==> IsGroup(s, Sleb(s).value.len)
  {
    SpanIsGroup(s);
  }

  /** The low seven bits of `b`, moved up by `shift`. */
  function Shifted(b: byte, shift: nat): nat {
    (b % 128) * Pow2(shift)
  }

  /** One more byte of a group: the new bits lie above those already present. */
  lemma GroupStep(s: seq<byte>, k: nat)
    requires k < |s| && k < 10
    ensures Base128(s[..k + 1]) == Base128(s[..k]) + Shifted(s[k], 7 * k)
    ensures Base128(s[..k]) < Pow2(7 * k) <= 0x8000_0000_0000_0000
    ensures k < 9 ==> Base128(s[..k + 1]) < Pow2(7 * k + 7) <= 0x8000_0000_0000_0000
  {
    assert s[..k + 1] == s[..k] + [s[k]];
    Base128Snoc(s[..k], s[k]);
    Base128Bound(s[..k]);
    Base128Bound(s[..k + 1]);
    Pow2Below64(7 * k);
    if k < 9 {
      Pow2Below64(7 * k + 7);
    }
  }

  /** `read_uleb`. The bits ORed in lie above those already present (`result <
      Pow2(shift)`), so the OR is the addition written here. */
  method ReadUleb(s: seq<byte>, cursor: nat, end: nat) returns (st: Status, next: nat, value: u64)
    requires cursor <= end <= |s|
    ensures st == Ok || st == BadFormat
    ensures st == Ok ==> cursor < next <= end
    ensures st == Ok ==> Uleb(s[cursor..end]) == Some(Read(value, next - cursor))
    ensures st != Ok ==> Uleb(s[cursor..end]) == None
  {
    hide Shifted, IsGroup, Pow2;
    var result: u64 := 0;
    var shift: nat := 0;
    next, value := cursor, 0;
    ghost var view := s[cursor..end];
    ghost var k := 0;
    while next < end
      invariant next == cursor + k <= end
      invariant shift == 7 * k && k < 10
      invariant result == Base128(view[..k]) < Pow2(shift)
      invariant forall i :: 0 <= i < k ==> view[i] >= 128
    {
      var b := s[next];
      next := next + 1;
      GroupStep(view, k);
      result := Wrap(result + Shifted(b, shift));
      if b < 128 {
        GroupSpan(view, k + 1);
        return Ok, next, result;
      }
      shift := shift + 7;
      if shift >= 64 {
        NoGroup(view);
        return BadFormat, next, 0;
      }
      k := k + 1;
    }
    NoGroup(view);
    return BadFormat, next, 0;
  }

  lemma NoGroup(s: seq<byte>)
    requires forall i :: 0 <= i < 10 && i < |s| ==> s[i] >= 128
    ensures Span(s) == 0 || Span(s) > MAX_GROUP
  {
    SpanIsGroup(s);
  }

  lemma Pow2Below64(k: nat)
    requires k < 64
    ensures Pow2(k) <= 0x8000_0000_0000_0000
  {
    Pow2Monotone(k, 63);
    Pow2Sixty3();
  }

  lemma {:induction false} Pow2Monotone(a: nat, b: nat)
    requires a <= b
    ensures Pow2(a) <= Pow2(b)
    decreases b
  {
    if a < b {
      Pow2Monotone(a, b - 1);
    }
  }

  lemma Pow2Sixty3()
    ensures Pow2(63) == 0x8000_0000_0000_0000
    ensures Pow2(70) == 64 * 0x1_0000_0000_0000_0000
  {
    WidthLimitIsPow2(8);
    Pow2Seven(63);
  }

  lemma ToSignedSmall(x: int)
    requires 0 <= x < 0x8000_0000_0000_0000
    ensures ToSigned(x) == x
  {
  }

  /** 2^70 is a multiple of 2^64. */
  lemma ToSignedPeriod(x: int)
    ensures ToSigned(x - 64 * 0x1_0000_0000_0000_0000) == ToSigned(x)
  {
  }

  /** The signed accumulator after one more byte, and the final extension. */
  lemma SignedStep(s: seq<byte>, k: nat)
    requires k < |s| && k < 10
    ensures var next := Base128(s[..k + 1]);
            && ToSigned(Base128(s[..k]) + Shifted(s[k], 7 * k)) == ToSigned(next)
            && (k < 9 ==> ToSigned(next) == next)
            && ToSigned(SignedBase128(s[..k + 1]))
               == if k < 9 && s[k] % 128 >= 64 then ToSigned(next - Pow2(7 * k + 7)) else ToSigned(next)
  {
    hide ToSigned, Pow2, Base128, Shifted;
    GroupStep(s, k);
    assert s[..k + 1][k] == s[k];
    if k < 9 {
      ToSignedSmall(Base128(s[..k + 1]));
    } else {
      Pow2Sixty3();
      ToSignedPeriod(Base128(s[..k + 1]));
    }
  }

  /** `read_sleb`. Below bit 64 the final OR with -(1 << shift) sets every higher
      bit of a value below 2^shift, which subtracts 2^shift. */
  method ReadSleb(s: seq<byte>, cursor: nat, end: nat) returns (st: Status, next: nat, value: i64)
    requires cursor <= end <= |s|
    ensures st == Ok || st == BadFormat
    ensures st == Ok ==> cursor < next <= end
    ensures st == Ok ==> Sleb(s[cursor..end]) == Some(Read(value, next - cursor))
    ensures st != Ok ==> Sleb(s[cursor..end]) == None
  {
    hide Shifted, SignedBase128, IsGroup, ToSigned, Pow2;
    var result: i64 := 0;
    var shift: nat := 0;
    next, value := cursor, 0;
    ghost var view := s[cursor..end];
    ghost var k := 0;
    while next < end
      invariant next == cursor + k <= end
      invariant shift == 7 * k && k < 10
      invariant result == Base128(view[..k])
      invariant forall i :: 0 <= i < k ==> view[i] >= 128
    {
      var b := s[next];
      next := next + 1;
      SignedStep(view, k);
      result := ToSigned(result + Shifted(b, shift));
      shift := shift + 7;
      if b < 128 {
        GroupSpan(view, k + 1);
        if shift < 64 && b % 128 >= 64 {
          result := ToSigned(result - Pow2(shift));
        }
        return Ok, next, result;
      }
      if shift >= 64 {
        NoGroup(view);
        return BadFormat, next, 0;
      }
      k := k + 1;
    }
    NoGroup(view);
    return BadFormat, next, 0;
  }

  // ---------------------------------------------------------------------
  // The encodings of section 7.6 of the DWARF 5 standard

  function EncodeUleb(v: nat): (s: seq<byte>)
    ensures s != []
  {
    if v < 128 then [v] else [v % 128 + 128] + EncodeUleb(v / 128)
  }

  function EncodeSleb(v: int): (s: seq<byte>)
    ensures s != []
    decreases if v < 0 then -v else v
  {
    if -64 <= v < 64 then [v % 128] else [v % 128 + 128] + EncodeSleb(v / 128)
  }

  lemma {:induction false} UlebGroup(v: nat, k: nat)
    requires v < Pow2(7 * k) && k > 0
    ensures |EncodeUleb(v)| <= k
    ensures IsGroup(EncodeUleb(v), |EncodeUleb(v)|)
    ensures Base128(EncodeUleb(v)) == v
  {
    if v >= 128 {
      if k == 1 {
        Pow2Seven(0);
      }
      Pow2Seven(7 * (k - 1));
      UlebGroup(v / 128, k - 1);
      GroupCons(v % 128 + 128, EncodeUleb(v / 128));
    }
  }

  lemma SlebSmall(v: int)
    requires -64 <= v < 64
    ensures IsGroup(EncodeSleb(v), 1) && |EncodeSleb(v)| == 1
    ensures SignedBase128(EncodeSleb(v)) == v
  {
    assert EncodeSleb(v) == [v % 128];
    assert Base128([v % 128]) == v % 128 + 128 * Base128([]);
    Pow2Seven(0);
  }

  lemma {:induction false} SlebGroup(v: int, k: nat)
    requires -64 * Pow2(7 * k) <= v < 64 * Pow2(7 * k)
    ensures |EncodeSleb(v)| <= k + 1
    ensures IsGroup(EncodeSleb(v), |EncodeSleb(v)|)
    ensures SignedBase128(EncodeSleb(v)) == v
    decreases k
  {
    hide IsGroup, SignedBase128;
    if -64 <= v < 64 {
      SlebSmall(v);
    } else {
      Pow2Seven(7 * (k - 1));
      SlebGroup(v / 128, k - 1);
      SlebCons(v);
    }
  }

  lemma GroupCons(b: byte, e: seq<byte>)
    requires b >= 128 && IsGroup(e, |e|)
    ensures IsGroup([b] + e, |[b] + e|)
    ensures Base128([b] + e) == b - 128 + 128 * Base128(e)
    ensures SignedBase128([b] + e) == b - 128 + 128 * SignedBase128(e)
  {
    var s := [b] + e;
    assert s[1..] == e && s[|s| - 1] == e[|e| - 1];
    Pow2Seven(7 * |e|);
  }

  lemma SlebCons(v: int)
    requires !(-64 <= v < 64)
    requires IsGroup(EncodeSleb(v / 128), |EncodeSleb(v / 128)|)
    requires SignedBase128(EncodeSleb(v / 128)) == v / 128
    ensures IsGroup(EncodeSleb(v), |EncodeSleb(v)|)
    ensures SignedBase128(EncodeSleb(v)) == v
  {
    hide IsGroup, SignedBase128, Base128;
    GroupCons(v % 128 + 128, EncodeSleb(v / 128));
  }

  lemma GroupAppend(g: seq<byte>, rest: seq<byte>)
    requires IsGroup(g, |g|)
    ensures Span(g + rest) == |g| && (g + rest)[..|g|] == g
  {
    assert forall i :: 0 <= i < |g| ==> (g + rest)[i] == g[i];
    GroupSpan(g + rest, |g|);
  }

  /** Reading inverts writing for every 64-bit value, whatever follows. */
  lemma UlebRoundTrip(v: u64, rest: seq<byte>)
    ensures Uleb(EncodeUleb(v) + rest) == Some(Read(v, |EncodeUleb(v)|))
  {
    hide EncodeUleb;
    Pow2Sixty3();
    UlebGroup(v, 10);
    GroupAppend(EncodeUleb(v), rest);
  }

  lemma SlebRoundTrip(v: i64, rest: seq<byte>)
    ensures Sleb(EncodeSleb(v) + rest) == Some(Read(v, |EncodeSleb(v)|))
  {
    hide EncodeSleb;
    Pow2Sixty3();
    SlebGroup(v, 9);
    GroupAppend(EncodeSleb(v), rest);
  }

  /** A successful read depends only on the bytes it consumed. */
  lemma UlebLocal(s: seq<byte>, t: seq<byte>)
    requires Uleb(s).Some?
    ensures Uleb(s + t) == Uleb(s)
  {
    var n := Span(s);
    SpanIsGroup(s);
    GroupSpan(s + t, n);
    assert (s + t)[..n] == s[..n];
  }

  lemma SlebLocal(s: seq<byte>, t: seq<byte>)
    requires Sleb(s).Some?
    ensures Sleb(s + t) == Sleb(s)
  {
    var n := Span(s);
    SpanIsGroup(s);
    GroupSpan(s + t, n);
    assert (s + t)[..n] == s[..n];
  }

  // ---------------------------------------------------------------------
  // Fixed-width words

  function LittleEndian(s: seq<byte>): nat {
    if s == [] then 0 else s[0] + 256 * LittleEndian(s[1..])
  }

  lemma {:induction false} LittleEndianBound(s: seq<byte>)
    ensures LittleEndian(s) < Pow2(8 * |s|)
  {
    if s != [] {
      LittleEndianBound(s[1..]);
      Pow2Eight(8 * |s[1..]|);
    }
  }

  predicate IsWidth(size: int) {
    size == 1 || size == 2 || size == 4 || size == 8
  }

  /** The first value too large for `size` bytes. */
  function WidthLimit(size: nat): nat
    requires IsWidth(size)
  {
    if size == 1 then 0x100
    else if size == 2 then 0x1_0000
    else if size == 4 then 0x1_0000_0000
    else 0x1_0000_0000_0000_0000
  }

  lemma Pow2ThirtyTwo(k: nat)
    ensures Pow2(k + 16) == 0x1_0000 * Pow2(k)
    ensures Pow2(k + 32) == 0x1_0000_0000 * Pow2(k)
  {
    Pow2Eight(k);
    Pow2Eight(k + 8);
    Pow2Eight(k + 16);
    Pow2Eight(k + 24);
  }

  lemma WidthLimitIsPow2(size: nat)
    requires IsWidth(size)
    ensures Pow2(8 * size) == WidthLimit(size)
  {
    var zero := 8 * size - 8 * size;
    Pow2Eight(zero);
    Pow2ThirtyTwo(zero);
    Pow2ThirtyTwo(zero + 32);
  }

  /** What `read_fixed_size` returns: too few bytes and odd widths both fail. */
  function Fixed(s: seq<byte>, size: nat): (r: Option<Read<u64>>)
    ensures r.Some? ==> r.value.len == size <= |s| && IsWidth(size)
  {
    if |s| < size || !IsWidth(size) then None
    else
      LittleEndianBound(s[..size]);
      WidthLimitIsPow2(size);
      Some(Read(LittleEndian(s[..size]), size))
  }

  function EncodeFixed(v: nat, size: nat): (s: seq<byte>)
    ensures |s| == size
  {
    if size == 0 then [] else [v % 256] + EncodeFixed(v / 256, size - 1)
  }

  lemma {:induction false} FixedValue(v: nat, size: nat)
    requires v < Pow2(8 * size)
    ensures LittleEndian(EncodeFixed(v, size)) == v
  {
    if size > 0 {
      Pow2Eight(8 * (size - 1));
      FixedValue(v / 256, size - 1);
      assert EncodeFixed(v, size)[1..] == EncodeFixed(v / 256, size - 1);
    }
  }

  lemma FixedRoundTrip(v: nat, size: nat, rest: seq<byte>)
    requires IsWidth(size) && v < WidthLimit(size)
    ensures Fixed(EncodeFixed(v, size) + rest, size) == Some(Read(v, size))
  {
    WidthLimitIsPow2(size);
    FixedValue(v, size);
    assert (EncodeFixed(v, size) + rest)[..size] == EncodeFixed(v, size);
  }

  lemma FixedLocal(s: seq<byte>, size: nat, t: seq<byte>)
    requires Fixed(s, size).Some?
    ensures Fixed(s + t, size) == Fixed(s, size)
  {
    assert (s + t)[..size] == s[..size];
  }

  /** `read_fixed_size`: one load of the requested width. */
  method ReadFixed(s: seq<byte>, cursor: nat, end: nat, size: nat) returns (st: Status, next: nat, value: u64)
    requires cursor <= end <= |s|
    ensures st == Ok || st == BadFormat
    ensures st == Ok <==> end - cursor >= size && IsWidth(size)
    ensures st == Ok ==> next == cursor + size <= end
    ensures st == Ok ==> Fixed(s[cursor..end], size) == Some(Read(value, size))
    ensures st != Ok ==> Fixed(s[cursor..end], size) == None
  {
    if end - cursor < size || !IsWidth(size) {
      return BadFormat, cursor, 0;
    }
    assert s[cursor..end][..size] == s[cursor..cursor + size];
    value := Fixed(s[cursor..cursor + size], size).value.value;
    assert s[cursor..cursor + size][..size] == s[cursor..cursor + size];
    return Ok, cursor + size, value;
  }
}
