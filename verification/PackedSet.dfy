/** A set of ids packed 64 to a word, for any word type `W` whose bits `bit` reads. */
module PackedSet {

  ghost predicate Has<W(!new)>(bit: (W, int) -> bool, words: seq<W>, id: int) {
    0 <= id < 64 * |words| && bit(words[id / 64], id % 64)
  }

  /** The set that a sequence of words stands for. */
  ghost function Members<W(!new)>(bit: (W, int) -> bool, words: seq<W>): set<int> {
    set id | 0 <= id < 64 * |words| && Has(bit, words, id)
  }

  /** Changing one bit of one word changes the membership of one id. */
  lemma UpdateWord<W(!new)>(bit: (W, int) -> bool, words: seq<W>, pos: nat, w: W, present: bool)
    requires pos < 64 * |words|
    requires forall j :: 0 <= j < 64 ==> (bit(w, j) <==> if j == pos % 64 then present else bit(words[pos / 64], j))
    ensures Members(bit, words[pos / 64 := w]) == if present then Members(bit, words) + {pos}
      else Members(bit, words) - {pos}
  {
    var after := words[pos / 64 := w];
    forall id | 0 <= id < 64 * |words|
      ensures Has(bit, after, id) <==> if id == pos then present else Has(bit, words, id)
    {
      assert id / 64 == pos / 64 && id % 64 == pos % 64 ==> id == pos;
    }
  }

  ghost predicate SameBits<W(!new)>(bit: (W, int) -> bool, v: W, w: W) {
    forall j :: 0 <= j < 64 ==> bit(v, j) == bit(w, j)
  }

  /** When a word is determined by its bits, a sequence of words is determined by its set. */
  lemma Extensionality<W(!new)>(bit: (W, int) -> bool, a: seq<W>, b: seq<W>)
    requires |a| == |b| && Members(bit, a) == Members(bit, b)
    requires forall v, w :: SameBits(bit, v, w) ==> v == w
    ensures a == b
  {
    forall k | 0 <= k < |a|
      ensures a[k] == b[k]
    {
      forall j | 0 <= j < 64
        ensures bit(a[k], j) == bit(b[k], j)
      {
        var id := 64 * k + j;
        assert id / 64 == k && id % 64 == j;
        assert Has(bit, a, id) == (id in Members(bit, a));
        assert Has(bit, b, id) == (id in Members(bit, b));
      }
      assert SameBits(bit, a[k], b[k]);
    }
  }

  /** The number of one bits of `w` below position `k`. */
  function OnesBelow<W(!new)>(bit: (W, int) -> bool, w: W, k: nat): nat {
    if k == 0 then 0 else OnesBelow(bit, w, k - 1) + (if bit(w, k - 1) then 1 else 0)
  }

  /** The ids `base`, `base + 1`, .. that the first `k` bits of `w` contribute. */
  ghost function Contribution<W(!new)>(bit: (W, int) -> bool, w: W, base: int, k: nat): set<int> {
    if k == 0 then {} else Contribution(bit, w, base, k - 1) + (if bit(w, k - 1) then {base + k - 1} else {})
  }

  lemma {:induction false} ContributionBounds<W(!new)>(bit: (W, int) -> bool, w: W, base: int, k: nat)
    ensures forall id :: id in Contribution(bit, w, base, k) ==> base <= id < base + k
  {
    if k > 0 {
      ContributionBounds(bit, w, base, k - 1);
    }
  }

  lemma {:induction false} ContributionSize<W(!new)>(bit: (W, int) -> bool, w: W, base: int, k: nat)
    ensures |Contribution(bit, w, base, k)| == OnesBelow(bit, w, k)
  {
    if k > 0 {
      ContributionSize(bit, w, base, k - 1);
      ContributionBounds(bit, w, base, k - 1);
    }
  }

  lemma {:induction false} ContributionMember<W(!new)>(bit: (W, int) -> bool, w: W, base: int, k: nat, j: int)
    ensures base + j in Contribution(bit, w, base, k) <==> 0 <= j < k && bit(w, j)
  {
    if k > 0 {
      ContributionMember(bit, w, base, k - 1, j);
    }
  }

  /** One more word adds the ids that its bits contribute. */
  lemma SnocMember<W(!new)>(bit: (W, int) -> bool, words: seq<W>, k: nat, id: int)
    requires k < |words|
    ensures id in Members(bit, words[..k + 1]) <==>
      id in Members(bit, words[..k]) || id in Contribution(bit, words[k], 64 * k, 64)
  {
    ContributionMember(bit, words[k], 64 * k, 64, id - 64 * k);
    if 64 * k <= id < 64 * k + 64 {
      assert id / 64 == k && id % 64 == id - 64 * k;
    } else if 0 <= id < 64 * k {
      assert id / 64 < k;
      assert Has(bit, words[..k], id) <==> Has(bit, words[..k + 1], id);
    }
  }

  lemma MembersSnoc<W(!new)>(bit: (W, int) -> bool, words: seq<W>, k: nat)
    requires k < |words|
    ensures |Members(bit, words[..k + 1])| == |Members(bit, words[..k])| + OnesBelow(bit, words[k], 64)
  {
    var front, added := Members(bit, words[..k]), Contribution(bit, words[k], 64 * k, 64);
    ContributionSize(bit, words[k], 64 * k, 64);
    ContributionBounds(bit, words[k], 64 * k, 64);
    assert front !! added;
    hide Members, Contribution;
    forall id
      ensures id in Members(bit, words[..k + 1]) <==> id in front || id in added
    {
      SnocMember(bit, words, k, id);
    }
    assert Members(bit, words[..k + 1]) == front + added;
  }
}
