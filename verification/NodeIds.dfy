/** 160-bit node identifiers and their XOR metric (src/bittorrent/node_id.{h,cpp}).

    An identifier is the source's buffer of twenty bytes, most significant first.  Its meaning is
    the 160-bit number `Num(Bits(id))`.  Everything that the routing table and the lookup need to
    know about the byte loops is proved here once, in terms of that number and of shared prefixes. */
module NodeIds {

  const BITS: nat := 160

  type Id = s: seq<bv8> | |s| == 20 witness seq(20, _ => 0)

  // ------------------------------------------------------------------------------------------
  // Bits

  /** The k-th bit of a byte, counted from the most significant one. */
  function Mask(k: nat): bv8
    requires k < 8
  {
    if k == 0 then 0x80 else if k == 1 then 0x40 else if k == 2 then 0x20 else if k == 3 then 0x10
    else if k == 4 then 0x08 else if k == 5 then 0x04 else if k == 6 then 0x02 else 0x01
  }

  predicate ByteBit(b: bv8, k: nat)
    requires k < 8
  {
    if k == 0 then b & 0x80 != 0 else if k == 1 then b & 0x40 != 0
    else if k == 2 then b & 0x20 != 0 else if k == 3 then b & 0x10 != 0
    else if k == 4 then b & 0x08 != 0 else if k == 5 then b & 0x04 != 0
    else if k == 6 then b & 0x02 != 0 else b & 0x01 != 0
  }

  predicate Bit(id: Id, n: nat)
    requires n < BITS
  {
    ByteBit(id[n / 8], n % 8)
  }

  function Bits(id: Id): (r: seq<bool>)
    ensures |r| == BITS
    ensures forall n :: 0 <= n < BITS ==> r[n] == Bit(id, n)
  {
    seq(BITS, n requires 0 <= n < BITS => Bit(id, n))
  }

  /** Clearing or setting one bit, as `NodeID::set_bit` does on its buffer. */
  function SetBit(id: Id, n: nat, value: bool): (r: Id)
    requires n < BITS
    ensures forall m :: 0 <= m < BITS ==> Bit(r, m) == if m == n then value else Bit(id, m)
  {
    var c := SetByteBit(id[n / 8], n % 8, value);
    var r: Id := id[n / 8 := c];
    assert forall m :: 0 <= m < BITS ==> Bit(r, m) == if m == n then value else Bit(id, m) by {
      forall m | 0 <= m < BITS ensures Bit(r, m) == if m == n then value else Bit(id, m) {
        if m / 8 == n / 8 {
          SetByteBitMeaning(id[n / 8], n % 8, value, m % 8);
        }
      }
    }
    r
  }

  function SetByteBit(b: bv8, k: nat, value: bool): bv8
    requires k < 8
  {
    if value then b | Mask(k) else b & !Mask(k)
  }

  lemma SetByteBitMeaning(b: bv8, k: nat, value: bool, j: nat)
    requires k < 8 && j < 8
    ensures ByteBit(SetByteBit(b, k, value), j) == if j == k then value else ByteBit(b, j)
  {
  }

  function MaxId(): (r: Id)
    ensures forall n :: 0 <= n < BITS ==> Bit(r, n)
  {
    seq(20, _ => 0xff)
  }

  function Xor(a: Id, b: Id): Id {
    seq(20, i requires 0 <= i < 20 => a[i] ^ b[i])
  }

  lemma XorBits(a: Id, b: Id)
    ensures forall n :: 0 <= n < BITS ==> Bit(Xor(a, b), n) == (Bit(a, n) != Bit(b, n))
  {
  }

  // ------------------------------------------------------------------------------------------
  // Numbers

  ghost function Pow2(n: nat): (r: nat)
    ensures r > 0
  {
    if n == 0 then 1 else 2 * Pow2(n - 1)
  }

  /** The number written by a string of bits, most significant first. */
  ghost function Num(bits: seq<bool>): (r: nat)
    ensures r < Pow2(|bits|)
  {
    if bits == [] then 0
    else (if bits[0] then Pow2(|bits| - 1) else 0) + Num(bits[1..])
  }

  /** The number decides as soon as one string has a 0 where the other has a 1. */
  lemma {:induction false} NumLessAt(a: seq<bool>, b: seq<bool>, k: nat)
    requires |a| == |b| && k < |a|
    requires forall i :: 0 <= i < k ==> a[i] == b[i]
    requires !a[k] && b[k]
    ensures Num(a) < Num(b)
  {
    if k == 0 {
    } else {
      NumLessAt(a[1..], b[1..], k - 1);
    }
  }

  lemma NumInjective(a: seq<bool>, b: seq<bool>)
    requires |a| == |b| && Num(a) == Num(b)
    ensures a == b
  {
  }

  /** A number is below 2^(n-k) exactly when its first k bits are zero. */
  lemma {:induction false} NumBelow(a: seq<bool>, k: nat)
    requires k <= |a|
    ensures Num(a) < Pow2(|a| - k) <==> forall i :: 0 <= i < k ==> !a[i]
  {
    if k == 0 {
    } else {
      if a[0] {
        Pow2Monotone(|a| - k, |a| - 1);
      } else {
        NumBelow(a[1..], k - 1);
        assert (forall i :: 0 <= i < k ==> !a[i]) <==> forall i :: 0 <= i < k - 1 ==> !a[1..][i] by {
          if forall i :: 0 <= i < k - 1 ==> !a[1..][i] {
            forall i | 0 <= i < k ensures !a[i] {
              if i > 0 { assert !a[1..][i - 1]; }
            }
          }
        }
      }
    }
  }

  lemma {:induction false} Pow2Monotone(a: nat, b: nat)
    requires a <= b
    ensures Pow2(a) <= Pow2(b)
  {
    if a < b {
      Pow2Monotone(a, b - 1);
    }
  }

  // ------------------------------------------------------------------------------------------
  // Distance

  /** The XOR distance as a number. */
  ghost function Distance(a: Id, b: Id): (r: nat)
    ensures r < Pow2(BITS)
  {
    Num(Bits(Xor(a, b)))
  }

  lemma DistanceSymmetric(a: Id, b: Id)
    ensures Distance(a, b) == Distance(b, a)
  {
    XorBits(a, b);
    XorBits(b, a);
    assert Bits(Xor(a, b)) == Bits(Xor(b, a));
  }

  /** Two ids with the same bits are the same id. */
  lemma BitsInjective(a: Id, b: Id)
    requires forall n :: 0 <= n < BITS ==> Bit(a, n) == Bit(b, n)
    ensures a == b
  {
    forall i | 0 <= i < 20 ensures a[i] == b[i] {
      forall k | 0 <= k < 8 ensures ByteBit(a[i], k) == ByteBit(b[i], k) {
        assert Bit(a, 8 * i + k) == Bit(b, 8 * i + k);
      }
      ByteInjective(a[i], b[i]);
    }
  }

  lemma ByteInjective(x: bv8, y: bv8)
    requires forall k :: 0 <= k < 8 ==> ByteBit(x, k) == ByteBit(y, k)
    ensures x == y
  {
    assert ByteBit(x, 0) == ByteBit(y, 0) && ByteBit(x, 1) == ByteBit(y, 1);
    assert ByteBit(x, 2) == ByteBit(y, 2) && ByteBit(x, 3) == ByteBit(y, 3);
    assert ByteBit(x, 4) == ByteBit(y, 4) && ByteBit(x, 5) == ByteBit(y, 5);
    assert ByteBit(x, 6) == ByteBit(y, 6) && ByteBit(x, 7) == ByteBit(y, 7);
  }

  /** The metric is unidirectional: from one pivot, every distance belongs to one id. */
  lemma DistanceInjective(pivot: Id, a: Id, b: Id)
    requires Distance(pivot, a) == Distance(pivot, b)
    ensures a == b
  {
    var x, y := Bits(Xor(pivot, a)), Bits(Xor(pivot, b));
    NumInjective(x, y);
    XorBits(pivot, a);
    XorBits(pivot, b);
    forall n | 0 <= n < BITS ensures Bit(a, n) == Bit(b, n) {
      assert x[n] == y[n];
    }
    BitsInjective(a, b);
  }

  /** `Closer(pivot, a, b)` is the meaning of `pivot.closer_to(a, b)`. */
  ghost predicate Closer(pivot: Id, a: Id, b: Id) {
    Distance(pivot, a) < Distance(pivot, b)
  }

  lemma CloserTotal(pivot: Id, a: Id, b: Id)
    ensures Closer(pivot, a, b) || a == b || Closer(pivot, b, a)
  {
    if Distance(pivot, a) == Distance(pivot, b) {
      DistanceInjective(pivot, a, b);
    }
  }

  // ------------------------------------------------------------------------------------------
  // The byte loops

  /** Comparing two bytes is comparing their first differing bit. */
  lemma ByteLess(x: bv8, y: bv8) returns (k: nat)
    requires x < y
    ensures k < 8 && !ByteBit(x, k) && ByteBit(y, k)
    ensures forall j :: 0 <= j < k ==> ByteBit(x, j) == ByteBit(y, j)
  {
    if ByteBit(x, 0) != ByteBit(y, 0) { k := 0; }
    else if ByteBit(x, 1) != ByteBit(y, 1) { k := 1; }
    else if ByteBit(x, 2) != ByteBit(y, 2) { k := 2; }
    else if ByteBit(x, 3) != ByteBit(y, 3) { k := 3; }
    else if ByteBit(x, 4) != ByteBit(y, 4) { k := 4; }
    else if ByteBit(x, 5) != ByteBit(y, 5) { k := 5; }
    else if ByteBit(x, 6) != ByteBit(y, 6) { k := 6; }
    else { k := 7; }
  }

  /** The first differing byte decides the number. */
  lemma FirstByteDecides(a: Id, b: Id, i: nat)
    requires i < 20 && a[i] < b[i]
    requires forall j :: 0 <= j < i ==> a[j] == b[j]
    ensures Num(Bits(a)) < Num(Bits(b))
  {
    var k := ByteLess(a[i], b[i]);
    var n := 8 * i + k;
    assert n / 8 == i && n % 8 == k;
    forall m | 0 <= m < n ensures Bit(a, m) == Bit(b, m) {
      if m / 8 == i { assert m % 8 < k; } else { assert m / 8 < i; }
    }
    NumLessAt(Bits(a), Bits(b), n);
  }

  /** `operator<` on buffers: lexicographic comparison of bytes. */
  method Less(a: Id, b: Id) returns (r: bool)
    ensures r <==> Num(Bits(a)) < Num(Bits(b))
  {
    for i := 0 to 20
      invariant forall j :: 0 <= j < i ==> a[j] == b[j]
    {
      if a[i] < b[i] {
        FirstByteDecides(a, b, i);
        return true;
      }
      if b[i] < a[i] {
        FirstByteDecides(b, a, i);
        return false;
      }
    }
    assert a == b;
    return false;
  }

  /** `NodeID::closer_to`: the byte loop compares XOR distances as numbers. */
  method CloserTo(pivot: Id, left: Id, right: Id) returns (r: bool)
    ensures r <==> Closer(pivot, left, right)
  {
    DistanceSymmetric(pivot, left);
    DistanceSymmetric(pivot, right);
    ghost var x, y := Xor(left, pivot), Xor(right, pivot);
    for i := 0 to 20
      invariant forall j :: 0 <= j < i ==> x[j] == y[j]
    {
      var lhs, rhs := left[i] ^ pivot[i], right[i] ^ pivot[i];
      XorAt(left, pivot, i);
      XorAt(right, pivot, i);
      if lhs < rhs {
        FirstByteDecides(x, y, i);
        return true;
      }
      if rhs < lhs {
        FirstByteDecides(y, x, i);
        return false;
      }
    }
    assert x == y;
    return false;
  }

  lemma XorAt(a: Id, b: Id, i: nat)
    requires i < 20
    ensures Xor(a, b)[i] == a[i] ^ b[i]
  {
  }

  // ------------------------------------------------------------------------------------------
  // Shared prefixes

  /** The first k bits of the two ids agree. */
  ghost predicate SharePrefix(a: Id, b: Id, k: nat)
    requires k <= BITS
  {
    forall n :: 0 <= n < k ==> Bit(a, n) == Bit(b, n)
  }

  /** Sharing k bits is being nearer than 2^(160-k). */
  lemma PrefixIsDistance(a: Id, b: Id, k: nat)
    requires k <= BITS
    ensures SharePrefix(a, b, k) <==> Distance(a, b) < Pow2(BITS - k)
  {
    var d := Bits(Xor(a, b));
    NumBelow(d, k);
    XorBits(a, b);
    assert (forall i :: 0 <= i < k ==> !d[i]) <==> SharePrefix(a, b, k) by {
      if forall i :: 0 <= i < k ==> !d[i] {
        forall n | 0 <= n < k ensures Bit(a, n) == Bit(b, n) { assert !d[n]; }
      }
    }
  }

  /** The XOR ultrametric: an id that shares k bits with the target beats one that does not. */
  lemma LongerPrefixIsCloser(target: Id, a: Id, b: Id, k: nat)
    requires k <= BITS
    requires SharePrefix(target, a, k) && !SharePrefix(target, b, k)
    ensures Closer(target, a, b)
  {
    PrefixIsDistance(target, a, k);
    PrefixIsDistance(target, b, k);
  }

  /** The largest distance allowed in bucket k: k zero bits followed by ones. */
  lemma MaxDistanceMeaning(a: Id, b: Id, max: Id, k: nat)
    requires k <= BITS
    requires forall n :: 0 <= n < BITS ==> Bit(max, n) == (n >= k)
    ensures Num(Bits(Xor(a, b))) <= Num(Bits(max)) <==> SharePrefix(a, b, k)
  {
    var d, m := Bits(Xor(a, b)), Bits(max);
    XorBits(a, b);
    if SharePrefix(a, b, k) {
      if d != m {
        NumBelowOnes(d, m, k);
      }
    } else {
      NumBelow(m, k);
      PrefixIsDistance(a, b, k);
    }
  }

  lemma NumBelowOnes(d: seq<bool>, m: seq<bool>, k: nat)
    requires |d| == |m| && k <= |d| && d != m
    requires forall i :: 0 <= i < k ==> !d[i] && !m[i]
    requires forall i :: k <= i < |m| ==> m[i]
    ensures Num(d) < Num(m)
  {
    var i := 0;
    while i < |d| && d[i] == m[i]
      invariant i <= |d|
      invariant forall j :: 0 <= j < i ==> d[j] == m[j]
    {
      i := i + 1;
    }
    NumLessAt(d, m, i);
  }

  /** The number of leading bits that two ids share. */
  ghost function CommonPrefix(a: Id, b: Id): (r: nat)
    ensures r <= BITS && SharePrefix(a, b, r)
    ensures r < BITS ==> Bit(a, r) != Bit(b, r)
  {
    CommonPrefixFrom(a, b, 0)
  }

  ghost function CommonPrefixFrom(a: Id, b: Id, k: nat): (r: nat)
    requires k <= BITS && SharePrefix(a, b, k)
    ensures k <= r <= BITS && SharePrefix(a, b, r)
    ensures r < BITS ==> Bit(a, r) != Bit(b, r)
    decreases BITS - k
  {
    if k == BITS || Bit(a, k) != Bit(b, k) then k else CommonPrefixFrom(a, b, k + 1)
  }

  /** At most 2^(160-k) ids share k bits with a given one. */
  lemma PrefixCrowd(a: Id, ids: set<Id>, k: nat)
    requires k <= BITS && forall id :: id in ids ==> SharePrefix(a, id, k)
    ensures |ids| <= Pow2(BITS - k)
  {
    forall id | id in ids ensures Distance(a, id) < Pow2(BITS - k) {
      PrefixIsDistance(a, id, k);
    }
    DistancesFit(a, ids, Pow2(BITS - k));
  }

  lemma {:induction false} DistancesFit(a: Id, ids: set<Id>, n: nat)
    requires forall id :: id in ids ==> Distance(a, id) < n
    ensures |ids| <= n
    decreases n
  {
    if id :| id in ids && Distance(a, id) == n - 1 {
      forall x | x in ids - {id} ensures Distance(a, x) < n - 1 {
        if Distance(a, x) == Distance(a, id) { DistanceInjective(a, x, id); }
      }
      DistancesFit(a, ids - {id}, n - 1);
    } else if ids != {} {
      var id :| id in ids;
      assert Distance(a, id) < n - 1;
      DistancesFit(a, ids, n - 1);
    }
  }
}
