// `union combined_alloc_info` of examples/memleak_bcc_dwunw/memleak.h: a 40-bit
// size and a 24-bit count in one 64-bit word, updated by atomic add and subtract.
module Packed {
  import opened Machine

  const SIZE_LIMIT: nat := 0x100_0000_0000
  const COUNT_LIMIT: nat := 0x100_0000

  /** The increment of one allocation: its size cut to 40 bits, and a count of 1. */
  function Pack(size: u64): (w: u64)
    ensures 0x100_0000_0000 <= w < 0x200_0000_0000
  {
    size % 0x100_0000_0000 + 0x100_0000_0000
  }

  function SizeOf(bits: u64): nat {
    bits % 0x100_0000_0000
  }

  function CountOf(bits: u64): nat {
    bits / 0x100_0000_0000
  }

  datatype Delta = Plus(size: u64) | Minus(size: u64)

  /** The word after a sequence of atomic updates, each wrapping at 2^64. */
  function Updated(bits: u64, ds: seq<Delta>): u64
    decreases |ds|
  {
    if ds == [] then bits
    else match ds[0]
      case Plus(size) => Updated(Wrap(bits + Pack(size)), ds[1..])
      case Minus(size) => Updated(Wrap(bits - Pack(size)), ds[1..])
  }

  /** Net size and net count of the updates, as integers. */
  function NetSize(ds: seq<Delta>): int {
    if ds == [] then 0 else (if ds[0].Plus? then ds[0].size else 0 - ds[0].size) + NetSize(ds[1..])
  }

  function NetCount(ds: seq<Delta>): int {
    if ds == [] then 0 else (if ds[0].Plus? then 1 else -1) + NetCount(ds[1..])
  }

  /** Net of what is cut off the sizes, in units of 2^40. */
  function NetLost(ds: seq<Delta>): int {
    if ds == [] then 0
    else (if ds[0].Plus? then ds[0].size / 0x100_0000_0000 else 0 - ds[0].size / 0x100_0000_0000) + NetLost(ds[1..])
  }

  lemma {:induction false} UpdatedIsNet(bits: u64, ds: seq<Delta>)
    ensures Updated(bits, ds) == Wrap(bits + NetSize(ds) + 0x100_0000_0000 * (NetCount(ds) - NetLost(ds)))
    decreases |ds|
  {
    if ds != [] {
      var step: int := if ds[0].Plus? then Pack(ds[0].size) else 0 - Pack(ds[0].size);
      UpdatedIsNet(Wrap(bits + step), ds[1..]);
      WrapAdd(bits + step, NetSize(ds[1..]) + 0x100_0000_0000 * (NetCount(ds[1..]) - NetLost(ds[1..])));
    }
  }

  /** A word with both fields in range unpacks to exactly those fields, and no
      other word does. */
  lemma UnpackExact(size: int, count: int)
    ensures var w := Wrap(size + 0x100_0000_0000 * count);
            (SizeOf(w) == size && CountOf(w) == count) <==> (0 <= size < SIZE_LIMIT && 0 <= count < COUNT_LIMIT)
  {
  }

  /** A size cut off by a multiple of 2^40 shows only in the count, which has 24 bits. */
  lemma UnpackCut(size: int, count: int, lost: int)
    ensures var w := Wrap(size + 0x100_0000_0000 * (count - lost));
            (SizeOf(w) == size && CountOf(w) == count)
            <==> (0 <= size < SIZE_LIMIT && 0 <= count < COUNT_LIMIT && lost % COUNT_LIMIT == 0)
  {
    if 0 <= size < SIZE_LIMIT {
      UnpackModulo(size, count - lost);
      SameResidue(count, lost);
    }
  }

  lemma UnpackModulo(size: nat, units: int)
    requires size < SIZE_LIMIT
    ensures var w := Wrap(size + 0x100_0000_0000 * units);
            SizeOf(w) == size && CountOf(w) == units % COUNT_LIMIT
  {
    var q, r := units / COUNT_LIMIT, units % COUNT_LIMIT;
    WrapTurns(size + 0x100_0000_0000 * r, q);
  }

  lemma WrapTurns(x: u64, q: int)
    ensures Wrap(x + 0x1_0000_0000_0000_0000 * q) == x
  {
  }

  lemma SameResidue(count: int, lost: int)
    ensures (count - lost) % COUNT_LIMIT == count <==> 0 <= count < COUNT_LIMIT && lost % COUNT_LIMIT == 0
  {
  }

  /** Whatever the order, and however the word wraps on the way, the final word
      unpacks to the net size and count exactly when both are in range and what was cut
      off the sizes cancels, modulo the range of the count. */
  lemma UpdatesUnpackToNet(ds: seq<Delta>)
    ensures var w := Updated(0, ds);
            (SizeOf(w) == NetSize(ds) && CountOf(w) == NetCount(ds))
            <==> (0 <= NetSize(ds) < SIZE_LIMIT && 0 <= NetCount(ds) < COUNT_LIMIT && NetLost(ds) % COUNT_LIMIT == 0)
  {
    UpdatedIsNet(0, ds);
    UnpackCut(NetSize(ds), NetCount(ds), NetLost(ds));
  }

  /** Sizes below 2^40 lose nothing. */
  lemma {:induction false} SmallSizesLoseNothing(ds: seq<Delta>)
    requires forall i :: 0 <= i < |ds| ==> ds[i].size < SIZE_LIMIT
    ensures NetLost(ds) == 0
  {
    if ds != [] {
      SmallSizesLoseNothing(ds[1..]);
    }
  }

  /** With a size of 2^40 or more both totals can be in range and the count still be
      wrong. */
  lemma CutSizeSpoilsCount()
    ensures var ds := [Plus(0x100_0000_0000), Minus(1)];
            && NetSize(ds) == 0xff_ffff_ffff && NetCount(ds) == 0
            && CountOf(Updated(0, ds)) == 0xff_ffff
  {
    var ds := [Plus(0x100_0000_0000), Minus(1)];
    assert ds[1..] == [Minus(1)] && [Minus(1)][1..] == [];
    assert NetSize([Minus(1)]) == -1 && NetCount([Minus(1)]) == -1 && NetLost([Minus(1)]) == 0;
    UpdatedIsNet(0, ds);
  }

  lemma {:induction false} NetOfConcat(a: seq<Delta>, b: seq<Delta>)
    ensures NetSize(a + b) == NetSize(a) + NetSize(b)
    ensures NetCount(a + b) == NetCount(a) + NetCount(b)
    ensures NetLost(a + b) == NetLost(a) + NetLost(b)
  {
    if a == [] {
      assert a + b == b;
    } else {
      assert (a + b)[1..] == a[1..] + b;
      NetOfConcat(a[1..], b);
    }
  }

  lemma {:induction false} NetOfPermutation(ds: seq<Delta>, ds': seq<Delta>)
    requires multiset(ds) == multiset(ds')
    ensures NetSize(ds) == NetSize(ds') && NetCount(ds) == NetCount(ds') && NetLost(ds) == NetLost(ds')
    decreases |ds|
  {
    assert |multiset(ds)| == |ds| && |multiset(ds')| == |ds'|;
    if ds != [] {
      assert ds[0] in multiset(ds');
      var k :| 0 <= k < |ds'| && ds'[k] == ds[0];
      var left, right := ds'[..k], ds'[k + 1..];
      RemoveOne(ds, ds', k);
      NetOfPermutation(ds[1..], left + right);
      NetOfConcat(left, right);
      assert ds' == left + ([ds[0]] + right);
      NetOfConcat(left, [ds[0]] + right);
      NetOfConcat([ds[0]], right);
      NetOfConcat([ds[0]], ds[1..]);
      assert ds == [ds[0]] + ds[1..];
    }
  }

  lemma RemoveOne(ds: seq<Delta>, ds': seq<Delta>, k: nat)
    requires ds != [] && k < |ds'| && ds'[k] == ds[0] && multiset(ds) == multiset(ds')
    ensures multiset(ds[1..]) == multiset(ds'[..k] + ds'[k + 1..])
  {
    assert ds == [ds[0]] + ds[1..];
    assert ds' == ds'[..k] + [ds'[k]] + ds'[k + 1..];
    assert multiset(ds[1..]) == multiset(ds) - multiset{ds[0]};
    assert multiset(ds'[..k] + ds'[k + 1..]) == multiset(ds') - multiset{ds[0]};
  }

  /** Reordering the updates does not change the word. */
  lemma OrderDoesNotMatter(bits: u64, ds: seq<Delta>, ds': seq<Delta>)
    requires multiset(ds) == multiset(ds')
    ensures Updated(bits, ds) == Updated(bits, ds')
  {
    NetOfPermutation(ds, ds');
    UpdatedIsNet(bits, ds);
    UpdatedIsNet(bits, ds');
  }
}
