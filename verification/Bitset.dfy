/** The packed set of operation ids that the linearizability search keeps.
    A bitset is an array of 64-bit words changed in place; what it means is a finite set of ids. */
module Bitset {
  import PackedSet

  // ---------- the masks `1 << i` ----------

  /** `1 << i` on 64 bits, written as `i` doublings; `Mask(64)` has lost its only bit. */
  function Mask(i: nat): bv64
    requires i <= 64
  {
    if i == 0 then 1 else Mask(i - 1) << 1
  }

  predicate SingleBit(m: bv64) {
    m & (m - 1) == 0
  }

  lemma {:induction false} MaskSingle(i: nat)
    requires i <= 64
    ensures SingleBit(Mask(i))
  {
    if i > 0 {
      MaskSingle(i - 1);
      SingleShift(Mask(i - 1));
    }
  }

  lemma SingleShift(m: bv64)
    requires SingleBit(m)
    ensures SingleBit(m << 1)
  {
  }

  lemma MaskPlus2(i: nat)
    requires i + 2 <= 64
    ensures Mask(i + 2) == Mask(i) << 2
  {
    assert Mask(i + 1) == Mask(i) << 1;
  }

  lemma MaskPlus4(i: nat)
    requires i + 4 <= 64
    ensures Mask(i + 4) == Mask(i) << 4
  {
    MaskPlus2(i);
    MaskPlus2(i + 2);
  }

  lemma MaskPlus8(i: nat)
    requires i + 8 <= 64
    ensures Mask(i + 8) == Mask(i) << 8
  {
    MaskPlus4(i);
    MaskPlus4(i + 4);
  }

  lemma MaskPlus16(i: nat)
    requires i + 16 <= 64
    ensures Mask(i + 16) == Mask(i) << 16
  {
    MaskPlus8(i);
    MaskPlus8(i + 8);
  }

  /** The bit falls out at position 64, and not before. */
  lemma MaskEnd(i: nat)
    requires i == 64
    ensures Mask(i) == 0 && Mask(i - 1) != 0
  {
    var start := i - 64;
    assert Mask(start) == 1;
    MaskPlus16(start);
    MaskPlus16(start + 16);
    MaskPlus16(start + 32);
    MaskPlus8(start + 48);
    MaskPlus4(start + 56);
    MaskPlus2(start + 60);
    assert Mask(i - 1) == Mask(i - 2) << 1;
    assert Mask(i) == Mask(i - 1) << 1;
  }

  lemma {:induction false} MaskNonZero(i: nat)
    requires i < 64
    ensures Mask(i) != 0
    decreases 64 - i
  {
    if i == 63 {
      MaskEnd(i + 1);
    } else {
      MaskNonZero(i + 1);
      assert Mask(i + 1) == Mask(i) << 1;
    }
  }

  lemma {:induction false} MaskInjective(i: nat, j: nat)
    requires i < j < 64
    ensures Mask(i) != Mask(j)
    decreases 64 - j
  {
    assert Mask(i + 1) == Mask(i) << 1;
    assert Mask(j + 1) == Mask(j) << 1;
    if j == 63 {
      MaskEnd(j + 1);
      MaskNonZero(i + 1);
    } else {
      MaskInjective(i + 1, j + 1);
    }
  }

  lemma SingleBitsDisjoint(m: bv64, n: bv64)
    requires SingleBit(m) && SingleBit(n) && m != n
    ensures Apart(m, n)
  {
  }

  predicate Apart(m: bv64, n: bv64) {
    m & n == 0
  }

  lemma MasksDisjoint(i: nat, j: nat)
    requires i < 64 && j < 64 && i != j
    ensures Apart(Mask(i), Mask(j))
  {
    MaskSingle(i);
    MaskSingle(j);
    if i < j {
      MaskInjective(i, j);
    } else {
      MaskInjective(j, i);
    }
    SingleBitsDisjoint(Mask(i), Mask(j));
  }

  // ---------- one word ----------

  /** Bit `i` of word `w`. */
  predicate Bit(w: bv64, i: int) {
    0 <= i < 64 && On(w, Mask(i))
  }

  predicate On(w: bv64, m: bv64) {
    w & m != 0
  }

  function Or(w: bv64, m: bv64): bv64 {
    w | m
  }

  function AndNot(w: bv64, m: bv64): bv64 {
    w & !m
  }

  lemma OrMask(w: bv64, i: nat, j: int)
    requires i < 64 && 0 <= j < 64
    ensures Bit(Or(w, Mask(i)), j) <==> (if j == i then true else Bit(w, j))
  {
    hide Mask, On, Apart, Or;
    if i == j {
      MaskNonZero(i);
      OrSame(w, Mask(i));
    } else {
      MasksDisjoint(i, j);
      OrOther(w, Mask(i), Mask(j));
    }
  }

  lemma AndNotMask(w: bv64, i: nat, j: int)
    requires i < 64 && 0 <= j < 64
    ensures Bit(AndNot(w, Mask(i)), j) <==> (if j == i then false else Bit(w, j))
  {
    hide Mask, On, Apart, AndNot;
    if i == j {
      AndNotSame(w, Mask(i));
    } else {
      MasksDisjoint(i, j);
      AndNotOther(w, Mask(i), Mask(j));
    }
  }

  lemma OrSame(w: bv64, m: bv64)
    requires m != 0
    ensures On(Or(w, m), m)
  {
    assert (w | m) & m == m;
  }

  lemma OrOther(w: bv64, m: bv64, n: bv64)
    requires Apart(m, n)
    ensures On(Or(w, m), n) <==> On(w, n)
  {
    if w & n == 0 {
      OrOff(w, m, n);
    } else {
      OrOn(w, m, n);
    }
  }

  lemma OrOff(w: bv64, m: bv64, n: bv64)
    requires m & n == 0 && w & n == 0
    ensures (w | m) & n == 0
  {
  }

  lemma OrOn(w: bv64, m: bv64, n: bv64)
    requires w & n != 0
    ensures (w | m) & n != 0
  {
  }

  lemma AndNotSame(w: bv64, m: bv64)
    ensures !On(AndNot(w, m), m)
  {
  }

  lemma AndNotOther(w: bv64, m: bv64, n: bv64)
    requires Apart(m, n)
    ensures On(AndNot(w, m), n) <==> On(w, n)
  {
    if w & n == 0 {
      AndNotOff(w, m, n);
    } else {
      AndNotOn(w, m, n);
    }
  }

  lemma AndNotOff(w: bv64, m: bv64, n: bv64)
    requires w & n == 0
    ensures (w & !m) & n == 0
  {
  }

  lemma AndNotOn(w: bv64, m: bv64, n: bv64)
    requires m & n == 0 && w & n != 0
    ensures (w & !m) & n != 0
  {
  }

  /** `d` has no bit below the one in `m`. */
  predicate NoneBelow(d: bv64, m: bv64) {
    d & (m - 1) == 0
  }

  lemma NoneBelowNext(v: bv64, w: bv64, m: bv64)
    requires SingleBit(m) && NoneBelow(v ^ w, m) && (On(v, m) <==> On(w, m))
    ensures NoneBelow(v ^ w, m << 1)
  {
    XorBit(v, w, m);
    LowBitsStep(m, v ^ w);
  }

  lemma LowBitsStep(m: bv64, d: bv64)
    requires SingleBit(m) && d & (m - 1) == 0 && d & m == 0
    ensures d & ((m << 1) - 1) == 0
  {
  }

  lemma XorBit(v: bv64, w: bv64, m: bv64)
    requires SingleBit(m) && (v & m != 0 <==> w & m != 0)
    ensures (v ^ w) & m == 0
  {
  }

  lemma {:induction false} LowBitsAgree(v: bv64, w: bv64, k: nat)
    requires k <= 64 && PackedSet.SameBits(Bit, v, w)
    ensures NoneBelow(v ^ w, Mask(k))
  {
    hide NoneBelow, On, SingleBit;
    if k > 0 {
      LowBitsAgree(v, w, k - 1);
      assert Bit(v, k - 1) == Bit(w, k - 1);
      MaskSingle(k - 1);
      NoneBelowNext(v, w, Mask(k - 1));
    } else {
      NoneBelowFirst(v ^ w);
    }
  }

  lemma NoneBelowFirst(d: bv64)
    ensures NoneBelow(d, 1)
  {
  }

  lemma XorZero(v: bv64, w: bv64)
    requires NoneBelow(v ^ w, 0)
    ensures v == w
  {
  }

  /** A word is determined by its 64 bits. */
  lemma WordExtensionality(v: bv64, w: bv64)
    requires PackedSet.SameBits(Bit, v, w)
    ensures v == w
  {
    var end := 64;
    LowBitsAgree(v, w, end);
    MaskEnd(end);
    XorZero(v, w);
  }

  // ---------- the set a bitset stands for ----------

  ghost function Members(words: seq<bv64>): set<int> {
    PackedSet.Members(Bit, words)
  }

  /** Two bitsets of one length are the same words exactly when they are the same set. */
  lemma SameMembersSameWords(a: seq<bv64>, b: seq<bv64>)
    requires |a| == |b|
    ensures Members(a) == Members(b) <==> a == b
  {
    hide Bit;
    if Members(a) == Members(b) {
      forall v, w | PackedSet.SameBits(Bit, v, w)
        ensures v == w
      {
        WordExtensionality(v, w);
      }
      PackedSet.Extensionality(Bit, a, b);
    }
  }

  /** The library's count of one bits, `bits.OnesCount64`. */
  function OnesCount64(w: bv64): nat {
    PackedSet.OnesBelow(Bit, w, 64)
  }

  // ---------- the operations ----------

  method NewBitset(bits: nat) returns (b: array<bv64>)
    ensures fresh(b)
    ensures b.Length == (bits + 63) / 64
    ensures Members(b[..]) == {}
  {
    var extra := if bits % 64 != 0 then 1 else 0;
    var chunks := bits / 64 + extra;
    b := new bv64[chunks](_ => 0);
    ZeroWords(b[..]);
  }

  lemma ZeroWords(words: seq<bv64>)
    requires forall k :: 0 <= k < |words| ==> words[k] == 0
    ensures Members(words) == {}
  {
    hide On;
    forall id | 0 <= id < 64 * |words|
      ensures !PackedSet.Has(Bit, words, id)
    {
      ZeroOff(words[id / 64], Mask(id % 64));
    }
  }

  lemma ZeroOff(w: bv64, m: bv64)
    requires w == 0
    ensures !On(w, m)
  {
  }

  method Clone(b: array<bv64>) returns (dataCopy: array<bv64>)
    ensures fresh(dataCopy) && dataCopy[..] == b[..]
  {
    dataCopy := new bv64[b.Length];
    forall k | 0 <= k < b.Length {
      dataCopy[k] := b[k];
    }
  }

  function BitsetIndex(pos: nat): (r: (nat, nat))
    ensures pos == 64 * r.0 + r.1 && r.1 < 64
  {
    (pos / 64, pos % 64)
  }

  method Set(b: array<bv64>, pos: nat) returns (r: array<bv64>)
    requires pos < 64 * b.Length
    modifies b
    ensures r == b
    ensures Members(b[..]) == old(Members(b[..])) + {pos}
  {
    hide Bit, Mask, Or;
    var (major, minor) := BitsetIndex(pos);
    ghost var before := b[..];
    ghost var w := Or(b[major], Mask(minor));
    forall j | 0 <= j < 64
      ensures Bit(w, j) <==> if j == pos % 64 then true else Bit(before[pos / 64], j)
    {
      OrMask(b[major], minor, j);
    }
    PackedSet.UpdateWord(Bit, before, pos, w, true);
    b[major] := Or(b[major], Mask(minor));
    assert b[..] == before[pos / 64 := w];
    r := b;
  }

  method Clear(b: array<bv64>, pos: nat) returns (r: array<bv64>)
    requires pos < 64 * b.Length
    modifies b
    ensures r == b
    ensures Members(b[..]) == old(Members(b[..])) - {pos}
  {
    hide Bit, Mask, AndNot;
    var (major, minor) := BitsetIndex(pos);
    ghost var before := b[..];
    ghost var w := AndNot(b[major], Mask(minor));
    forall j | 0 <= j < 64
      ensures Bit(w, j) <==> if j == pos % 64 then false else Bit(before[pos / 64], j)
    {
      AndNotMask(b[major], minor, j);
    }
    PackedSet.UpdateWord(Bit, before, pos, w, false);
    b[major] := AndNot(b[major], Mask(minor));
    assert b[..] == before[pos / 64 := w];
    r := b;
  }

  method Get(b: array<bv64>, pos: nat) returns (present: bool)
    requires pos < 64 * b.Length
    ensures present <==> pos in Members(b[..])
  {
    hide Mask, On;
    var (major, minor) := BitsetIndex(pos);
    present := On(b[major], Mask(minor));
    assert PackedSet.Has(Bit, b[..], pos) <==> present;
  }

  method Popcnt(b: array<bv64>) returns (total: nat)
    ensures total == |Members(b[..])|
  {
    hide Bit;
    total := 0;
    for k := 0 to b.Length
      invariant total == |Members(b[..k])|
    {
      PackedSet.MembersSnoc(Bit, b[..], k);
      assert b[..][..k] == b[..k] && b[..][..k + 1] == b[..k + 1];
      total := total + OnesCount64(b[k]);
    }
    assert b[..b.Length] == b[..];
  }

  /** A count as a 64-bit word, wrapping as a conversion to `uint64` does. */
  function ToWord(count: nat): bv64 {
    (count % 0x1_0000_0000_0000_0000) as bv64
  }

  function Xor(v: bv64, w: bv64): bv64 {
    v ^ w
  }

  function XorAll(words: seq<bv64>, start: bv64): bv64 {
    if words == [] then start else Xor(XorAll(words[..|words| - 1], start), words[|words| - 1])
  }

  /** The hash in closed form: the cardinality of the set, xor-ed with every word. */
  ghost function HashOf(words: seq<bv64>): bv64 {
    XorAll(words, ToWord(|Members(words)|))
  }

  method Hash(b: array<bv64>) returns (hash: bv64)
    ensures hash == HashOf(b[..])
  {
    hide Members, ToWord;
    var count := Popcnt(b);
    hash := ToWord(count);
    for k := 0 to b.Length
      invariant hash == XorAll(b[..k], ToWord(count))
    {
      assert b[..k + 1][..k] == b[..k];
      hash := hash ^ b[k];
    }
    assert b[..b.Length] == b[..];
  }

  lemma XorOn(v: bv64, w: bv64, m: bv64)
    requires SingleBit(m)
    ensures On(v ^ w, m) <==> (On(v, m) <==> !On(w, m))
  {
  }

  lemma XorBitAt(v: bv64, w: bv64, j: nat)
    requires j < 64
    ensures Bit(Xor(v, w), j) <==> (Bit(v, j) <==> !Bit(w, j))
  {
    hide On, SingleBit;
    MaskSingle(j);
    XorOn(v, w, Mask(j));
  }

  /** How many of the words have the bit. */
  function CountOn(words: seq<bv64>, j: nat): nat {
    if words == [] then 0
    else CountOn(words[..|words| - 1], j) + (if Bit(words[|words| - 1], j) then 1 else 0)
  }

  lemma {:induction false} XorAllBit(words: seq<bv64>, start: bv64, j: nat)
    requires j < 64
    ensures Bit(XorAll(words, start), j) <==> (CountOn(words, j) + (if Bit(start, j) then 1 else 0)) % 2 == 1
    decreases |words|
  {
    hide Bit, Xor;
    if words != [] {
      var n := |words| - 1;
      XorAllBit(words[..n], start, j);
      XorBitAt(XorAll(words[..n], start), words[n], j);
    }
  }

  /** A bit of the hash is set exactly when an odd number of the words and the count have it. */
  lemma HashBit(words: seq<bv64>, j: nat)
    requires j < 64
    ensures Bit(HashOf(words), j) <==>
      (CountOn(words, j) + (if Bit(ToWord(|Members(words)|), j) then 1 else 0)) % 2 == 1
  {
    hide Members, ToWord, Bit, CountOn;
    XorAllBit(words, ToWord(|Members(words)|), j);
  }

  /** Equal sets hash equally, so a lookup in the bucket of a hash misses no equal set, whatever collides. */
  lemma EqualSetsHashEqually(a: seq<bv64>, b: seq<bv64>)
    requires |a| == |b| && Members(a) == Members(b)
    ensures HashOf(a) == HashOf(b)
  {
    SameMembersSameWords(a, b);
  }

  method Equals(b: array<bv64>, b2: array<bv64>) returns (same: bool)
    ensures same <==> b[..] == b2[..]
    ensures b.Length == b2.Length ==> (same <==> Members(b[..]) == Members(b2[..]))
  {
    hide Members;
    if b.Length != b2.Length {
      return false;
    }
    SameMembersSameWords(b[..], b2[..]);
    for k := 0 to b.Length
      invariant b[..k] == b2[..k]
    {
      if b[k] != b2[k] {
        assert b[..][k] != b2[..][k];
        return false;
      }
    }
    assert b[..] == b[..b.Length] && b2[..] == b2[..b2.Length];
    return true;
  }
}
