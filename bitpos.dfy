/** bitpos_from_mask (voltha/extensions/omci/omci.py:29-47): the set bits of a
    mask turned into a sorted list of numbers, the bit b standing for
    lsb_pos + b * increment. */
module BitPos {
  import opened Bits

  predicate Sorted(s: seq<int>)
  {
    forall i, j :: 0 <= i < j < |s| ==> s[i] <= s[j]
  }

  predicate StrictlySorted(s: seq<int>)
  {
    forall i, j :: 0 <= i < j < |s| ==> s[i] < s[j]
  }

  predicate StrictlyDescending(s: seq<int>)
  {
    forall i, j :: 0 <= i < j < |s| ==> s[i] > s[j]
  }

  function Reverse(s: seq<int>): seq<int>
  {
    seq(|s|, i requires 0 <= i < |s| => s[|s| - 1 - i])
  }

  /** The list `out` the loop of bitpos_from_mask has built once the mask is
      exhausted: lsb + b * inc for every set bit b, least significant first. */
  function Collected(mask: nat, lsb: int, inc: int): seq<int>
    decreases mask
  {
    if mask == 0 then []
    else (if mask % 2 == 1 then [lsb] else []) + Collected(mask / 2, lsb + inc, inc)
  }

  /** sorted(out): the collected list in ascending order. The loop visits the
      bits in increasing position, so the list is already ascending when
      inc >= 0 and descending when inc < 0 (see BitPositionsSorted). */
  function BitPositions(mask: nat, lsb: int, inc: int): seq<int>
  {
    if inc < 0 then Reverse(Collected(mask, lsb, inc)) else Collected(mask, lsb, inc)
  }

  /** The loop of bitpos_from_mask, followed by its final sort. */
  method BitposFromMask(mask: nat, lsbPos: int, increment: int) returns (r: seq<int>)
    ensures r == BitPositions(mask, lsbPos, increment)
    ensures Sorted(r) && multiset(r) == multiset(Collected(mask, lsbPos, increment))
  {
    var out: seq<int> := [];
    var m, pos := mask, lsbPos;
    while m != 0
      invariant out + Collected(m, pos, increment) == Collected(mask, lsbPos, increment)
      decreases m
    {
      if m % 2 == 1 {
        out := out + [pos];
      }
      pos := pos + increment;
      m := m / 2;
    }
    assert out == Collected(mask, lsbPos, increment);
    r := if increment < 0 then Reverse(out) else out;
    BitPositionsSorted(mask, lsbPos, increment);
    BitPositionsPermutation(mask, lsbPos, increment);
  }

  /** One entry per set bit. */
  lemma {:induction false} CollectedLength(mask: nat, lsb: int, inc: int)
    ensures |Collected(mask, lsb, inc)| == Popcount(mask)
    decreases mask
  {
    if mask > 0 {
      CollectedLength(mask / 2, lsb + inc, inc);
    }
  }

  /** The entry for bit b is lsb + b * inc, and there is one only for set bits. */
  lemma {:induction false} CollectedMembers(mask: nat, lsb: int, inc: int, x: int)
    ensures x in Collected(mask, lsb, inc) <==> exists b: nat :: Bit(mask, b) && x == lsb + b * inc
    decreases mask
  {
    if mask == 0 {
      forall b: nat ensures !Bit(mask, b) { ZeroHasNoBits(b); }
    } else {
      var tail := Collected(mask / 2, lsb + inc, inc);
      assert Collected(mask, lsb, inc) == (if mask % 2 == 1 then [lsb] else []) + tail;
      CollectedMembers(mask / 2, lsb + inc, inc, x);
      if x in Collected(mask, lsb, inc) {
        if x in tail {
          var b: nat :| Bit(mask / 2, b) && x == lsb + inc + b * inc;
          var c: nat := b + 1;
          assert Bit(mask, c) && x == lsb + c * inc;
        } else {
          var c: nat := 0;
          assert Bit(mask, c) && x == lsb + c * inc;
        }
        assert exists c: nat :: Bit(mask, c) && x == lsb + c * inc;
      }
      if exists b: nat :: Bit(mask, b) && x == lsb + b * inc {
        var b: nat :| Bit(mask, b) && x == lsb + b * inc;
        if b > 0 {
          var b2: nat := b - 1;
          assert Bit(mask / 2, b2) && x == lsb + inc + b2 * inc;
          assert exists c: nat :: Bit(mask / 2, c) && x == lsb + inc + c * inc;
        } else {
          assert mask % 2 == 1 && x == lsb;
        }
        assert x in Collected(mask, lsb, inc);
      }
    }
  }

  /** Every entry lies on the side of lsb that inc points to. */
  lemma {:induction false} CollectedBounds(mask: nat, lsb: int, inc: int)
    ensures inc > 0 ==> forall x :: x in Collected(mask, lsb, inc) ==> x >= lsb
    ensures inc < 0 ==> forall x :: x in Collected(mask, lsb, inc) ==> x <= lsb
    ensures inc == 0 ==> forall x :: x in Collected(mask, lsb, inc) ==> x == lsb
    decreases mask
  {
    if mask > 0 {
      CollectedBounds(mask / 2, lsb + inc, inc);
    }
  }

  /** The loop appends in the direction of inc. */
  lemma {:induction false} CollectedOrdered(mask: nat, lsb: int, inc: int)
    ensures inc > 0 ==> StrictlySorted(Collected(mask, lsb, inc))
    ensures inc < 0 ==> StrictlyDescending(Collected(mask, lsb, inc))
    ensures inc == 0 ==> Sorted(Collected(mask, lsb, inc))
    decreases mask
  {
    if mask > 0 {
      var tail := Collected(mask / 2, lsb + inc, inc);
      CollectedOrdered(mask / 2, lsb + inc, inc);
      CollectedBounds(mask / 2, lsb + inc, inc);
      if mask % 2 == 1 {
        var s := [lsb] + tail;
        assert Collected(mask, lsb, inc) == s;
        forall j | 0 < j < |s| ensures s[j] == tail[j - 1] && s[j] in tail { }
      } else {
        assert Collected(mask, lsb, inc) == tail;
      }
    }
  }

  lemma ReverseOfDescending(s: seq<int>)
    requires StrictlyDescending(s)
    ensures StrictlySorted(Reverse(s))
  {
  }

  lemma {:induction false} ReversePermutation(s: seq<int>)
    ensures multiset(Reverse(s)) == multiset(s)
    decreases |s|
  {
    if s != [] {
      var n := |s|;
      ReversePermutation(s[..n - 1]);
      assert Reverse(s) == [s[n - 1]] + Reverse(s[..n - 1]);
      assert s == s[..n - 1] + [s[n - 1]];
    }
  }

  /** Reversing a concatenation swaps and reverses the parts. */
  lemma ReverseConcat(a: seq<int>, b: seq<int>)
    ensures Reverse(a + b) == Reverse(b) + Reverse(a)
  {
    assert |Reverse(a + b)| == |Reverse(b) + Reverse(a)|;
    forall i | 0 <= i < |a| + |b|
      ensures Reverse(a + b)[i] == (Reverse(b) + Reverse(a))[i]
    {
      if i < |b| {
        assert Reverse(a + b)[i] == (a + b)[|a| + |b| - 1 - i] == b[|b| - 1 - i];
      } else {
        assert Reverse(a + b)[i] == (a + b)[|a| + |b| - 1 - i] == a[|a| - 1 - (i - |b|)];
      }
    }
  }

  /** bitpos_from_mask returns an ascending list, strictly when inc != 0. */
  lemma BitPositionsSorted(mask: nat, lsb: int, inc: int)
    ensures Sorted(BitPositions(mask, lsb, inc))
    ensures inc != 0 ==> StrictlySorted(BitPositions(mask, lsb, inc))
  {
    CollectedOrdered(mask, lsb, inc);
    if inc < 0 {
      ReverseOfDescending(Collected(mask, lsb, inc));
    }
  }

  /** ... holding exactly the entries the loop collected. */
  lemma BitPositionsPermutation(mask: nat, lsb: int, inc: int)
    ensures multiset(BitPositions(mask, lsb, inc)) == multiset(Collected(mask, lsb, inc))
  {
    ReversePermutation(Collected(mask, lsb, inc));
  }

  /** A sorted permutation is unique, so BitPositions is what Python's
      sorted() returns for the collected list, whatever sorting it uses. */
  lemma {:induction false} SortedUnique(s: seq<int>, t: seq<int>)
    requires Sorted(s) && Sorted(t) && multiset(s) == multiset(t)
    ensures s == t
    decreases |s|
  {
    if s == [] || t == [] {
      assert |s| == |multiset(s)| == |multiset(t)| == |t|;
    } else {
      SameHead(s, t);
      SplitHead(s);
      SplitHead(t);
      SortedUnique(s[1..], t[1..]);
      assert s == [s[0]] + s[1..] && t == [t[0]] + t[1..];
    }
  }

  /** Sorted lists with the same entries start with the same, least, entry. */
  lemma SameHead(s: seq<int>, t: seq<int>)
    requires Sorted(s) && Sorted(t) && multiset(s) == multiset(t) && s != [] && t != []
    ensures s[0] == t[0]
  {
    assert s[0] in multiset(t) && t[0] in multiset(s) by {
      assert s[0] in s && t[0] in t;
    }
    SortedHeadIsLeast(s, t[0]);
    SortedHeadIsLeast(t, s[0]);
  }

  /** In a sorted list the first entry is the least. */
  lemma SortedHeadIsLeast(s: seq<int>, x: int)
    requires Sorted(s) && x in multiset(s)
    ensures s[0] <= x
  {
    var i :| 0 <= i < |s| && s[i] == x;
  }

  lemma SplitHead(s: seq<int>)
    requires s != []
    ensures multiset(s[1..]) == multiset(s) - multiset{s[0]}
    ensures Sorted(s) ==> Sorted(s[1..])
  {
    assert s == [s[0]] + s[1..];
  }

  /** Mask 0 selects nothing. */
  lemma BitPositionsOfZero(lsb: int, inc: int)
    ensures BitPositions(0, lsb, inc) == []
  {
  }

  /** One entry per set bit of the mask: the length is its population count. */
  lemma BitPositionsLength(mask: nat, lsb: int, inc: int)
    ensures |BitPositions(mask, lsb, inc)| == Popcount(mask)
  {
    CollectedLength(mask, lsb, inc);
  }

  /** The entry for set bit b is lsb + b * inc, and there are no others. */
  lemma BitPositionsMembers(mask: nat, lsb: int, inc: int, x: int)
    ensures x in BitPositions(mask, lsb, inc) <==> exists b: nat :: Bit(mask, b) && x == lsb + b * inc
  {
    BitPositionsPermutation(mask, lsb, inc);
    assert x in BitPositions(mask, lsb, inc) <==> x in multiset(BitPositions(mask, lsb, inc));
    CollectedMembers(mask, lsb, inc, x);
  }

  /** The members of s within [lo, hi), ascending: sorted() of a set of indices. */
  function AscendingMembers(s: set<int>, lo: int, hi: int): seq<int>
    decreases hi - lo
  {
    if lo >= hi then [] else (if lo in s then [lo] else []) + AscendingMembers(s, lo + 1, hi)
  }

  lemma {:induction false} AscendingMembersSpec(s: set<int>, lo: int, hi: int)
    ensures StrictlySorted(AscendingMembers(s, lo, hi))
    ensures forall x :: x in AscendingMembers(s, lo, hi) <==> x in s && lo <= x < hi
    decreases hi - lo
  {
    if lo < hi {
      var tail := AscendingMembers(s, lo + 1, hi);
      AscendingMembersSpec(s, lo + 1, hi);
      if lo in s {
        var r := [lo] + tail;
        assert AscendingMembers(s, lo, hi) == r;
        forall j | 0 < j < |r| ensures r[j] == tail[j - 1] && r[j] in tail { }
      }
    }
  }

  /** Two strictly ascending lists with the same members are equal. */
  lemma {:induction false} StrictlySortedUnique(a: seq<int>, b: seq<int>)
    requires StrictlySorted(a) && StrictlySorted(b)
    requires forall x :: x in a <==> x in b
    ensures a == b
    decreases |a|
  {
    SameMembersBothEmpty(a, b);
    if a != [] {
      var x, y := a[0], b[0];
      assert x in a && x in b && y in b && y in a;
      assert a[0] == b[0];
      forall x ensures x in a[1..] <==> x in b[1..] {
        assert x in a[1..] <==> x in a && x != a[0];
        assert x in b[1..] <==> x in b && x != b[0];
      }
      StrictlySortedUnique(a[1..], b[1..]);
      assert a == [a[0]] + a[1..] && b == [b[0]] + b[1..];
    }
  }

  lemma SameMembersBothEmpty(a: seq<int>, b: seq<int>)
    requires forall x :: x in a <==> x in b
    ensures a == [] <==> b == []
  {
    if a != [] {
      var x := a[0];
      assert x in a && x in b;
    }
    if b != [] {
      var x := b[0];
      assert x in b && x in a;
    }
  }
}
