/**
 The hierarchical occupancy index: one bit per price level, one bit per word of those,
 one bit per word of that. `bits` is the set of occupied levels the three tiers stand for.
 */
module LevelBitmaps {
  import opened Types
  import opened Words

  // Tier 0 holds exactly the members of `bits`.
  ghost predicate Leaves(l0: seq<Word>, bits: set<nat>) {
    && (forall w, k | 0 <= w < |l0| && 0 <= k < 64 :: l0[w][k] <==> 64 * w + k in bits)
    && (forall b | b in bits :: b < 64 * |l0|)
  }

  // An upper bit is set iff the word below it exists and is non-zero.
  ghost predicate Summary(lower: seq<Word>, upper: seq<Word>) {
    forall v, k | 0 <= v < |upper| && 0 <= k < 64 ::
      upper[v][k] <==> 64 * v + k < |lower| && lower[64 * v + k] != Zero()
  }

  ghost predicate Indexes(l0: seq<Word>, l1: seq<Word>, l2: Word, bits: set<nat>) {
    Leaves(l0, bits) && Summary(l0, l1) && Summary(l1, [l2])
  }

  lemma LeafBit(l0: seq<Word>, bits: set<nat>, b: nat)
    requires Leaves(l0, bits) && b < 64 * |l0|
    ensures l0[b / 64][b % 64] <==> b in bits
  {
    assert b == 64 * (b / 64) + b % 64;
  }

  // Updating one word of a tier, and the summary bit above it, keeps the summary.
  lemma SummaryUpdate(lower: seq<Word>, upper: seq<Word>, w: nat, word: Word, above: Word)
    requires Summary(lower, upper) && w < |lower| && w / 64 < |upper|
    requires above == if word != Zero() then Or(upper[w / 64], One(w % 64))
                      else And(upper[w / 64], Not(One(w % 64)))
    ensures Summary(lower[w := word], upper[w / 64 := above])
  {
    assert w == 64 * (w / 64) + w % 64;
    var lower', upper' := lower[w := word], upper[w / 64 := above];
    forall v, k | 0 <= v < |upper'| && 0 <= k < 64
      ensures upper'[v][k] <==> 64 * v + k < |lower'| && lower'[64 * v + k] != Zero()
    {
      assert upper[v][k] <==> 64 * v + k < |lower| && lower[64 * v + k] != Zero();
    }
  }

  // A tier whose words keep their zero-ness needs no change above.
  lemma SummaryKept(lower: seq<Word>, upper: seq<Word>, w: nat, word: Word)
    requires Summary(lower, upper) && w < |lower|
    requires word != Zero() <==> lower[w] != Zero()
    ensures Summary(lower[w := word], upper)
  {
  }

  lemma LeavesSet(l0: seq<Word>, bits: set<nat>, b: nat)
    requires Leaves(l0, bits) && b < 64 * |l0|
    ensures var word := Or(l0[b / 64], One(b % 64));
            word != Zero() && Leaves(l0[b / 64 := word], bits + {b})
  {
    assert b == 64 * (b / 64) + b % 64;
    var word := Or(l0[b / 64], One(b % 64));
    assert word[b % 64];
    var l0' := l0[b / 64 := word];
    forall w, k | 0 <= w < |l0'| && 0 <= k < 64
      ensures l0'[w][k] <==> 64 * w + k in bits + {b}
    {
      assert l0[w][k] <==> 64 * w + k in bits;
    }
  }

  lemma LeavesReset(l0: seq<Word>, bits: set<nat>, b: nat)
    requires Leaves(l0, bits) && b < 64 * |l0|
    ensures Leaves(l0[b / 64 := And(l0[b / 64], Not(One(b % 64)))], bits - {b})
  {
    assert b == 64 * (b / 64) + b % 64;
    var l0' := l0[b / 64 := And(l0[b / 64], Not(One(b % 64)))];
    forall w, k | 0 <= w < |l0'| && 0 <= k < 64
      ensures l0'[w][k] <==> 64 * w + k in bits - {b}
    {
      assert l0[w][k] <==> 64 * w + k in bits;
    }
  }

  lemma SummaryAt(lower: seq<Word>, upper: seq<Word>, u: nat)
    requires Summary(lower, upper) && u < |lower| && u / 64 < |upper|
    ensures upper[u / 64][u % 64] <==> lower[u] != Zero()
  {
    assert u == 64 * (u / 64) + u % 64;
    var v, k := u / 64, u % 64;
    assert upper[v][k] <==> 64 * v + k < |lower| && lower[64 * v + k] != Zero();
  }

  // One step of an upward scan of a tier: the summary word above `u`, masked past `u`, gives
  // the next non-zero word of the same group, or shows that the group holds no other.
  lemma ScanUp(lower: seq<Word>, upper: seq<Word>, u: nat, m: Word)
    requires Summary(lower, upper) && u / 64 < |upper|
    requires m == And(upper[u / 64], ShlSafe(Ones(), u % 64 + 1))
    ensures m != Zero() ==> var x := 64 * (u / 64) + CountrZero(m);
            u < x < |lower| && lower[x] != Zero() && forall y | u < y < x :: lower[y] == Zero()
    ensures m == Zero() ==> forall y | u < y < |lower| && y / 64 == u / 64 :: lower[y] == Zero()
  {
    ZeroIffNoBit(m);
    var limit := if m == Zero() then |lower| else 64 * (u / 64) + CountrZero(m);
    forall y | u < y < limit && y < |lower| && y / 64 == u / 64
      ensures lower[y] == Zero()
    {
      SummaryAt(lower, upper, y);
      assert !m[y % 64];
    }
    if m != Zero() {
      assert upper[u / 64][CountrZero(m)];
    }
  }

  lemma ScanDown(lower: seq<Word>, upper: seq<Word>, u: nat, m: Word)
    requires Summary(lower, upper) && u / 64 < |upper| && u < |lower|
    requires m == And(upper[u / 64], ShrSafe(Ones(), 64 - u % 64))
    ensures m != Zero() ==> var x := 64 * (u / 64) + Bsr(m);
            x < u && lower[x] != Zero() && forall y | x < y < u :: lower[y] == Zero()
    ensures m == Zero() ==> forall y | 0 <= y < u && y / 64 == u / 64 :: lower[y] == Zero()
  {
    ZeroIffNoBit(m);
    var limit := if m == Zero() then -1 else 64 * (u / 64) + Bsr(m);
    forall y: nat | limit < y < u && y / 64 == u / 64
      ensures lower[y] == Zero()
    {
      SummaryAt(lower, upper, y);
      assert !m[y % 64];
    }
    if m != Zero() {
      assert upper[u / 64][Bsr(m)];
    }
  }

  // Past an exhausted group, the first word of the next non-empty group is the next one.
  lemma NextGroup(lower: seq<Word>, upper: seq<Word>, u: nat, v: nat)
    requires Summary(lower, upper) && |lower| <= 64 * |upper|
    requires u / 64 < v < |upper| && upper[v] != Zero()
    requires forall y | u < y < |lower| && y / 64 == u / 64 :: lower[y] == Zero()
    requires forall g | u / 64 < g < v :: upper[g] == Zero()
    ensures var x := 64 * v + CountrZero(upper[v]);
            u < x < |lower| && lower[x] != Zero() && forall y | u < y < x :: lower[y] == Zero()
  {
    var x := 64 * v + CountrZero(upper[v]);
    assert upper[v][CountrZero(upper[v])];
    forall y | u < y < x && y < |lower|
      ensures lower[y] == Zero()
    {
      SummaryAt(lower, upper, y);
      ZeroIffNoBit(upper[y / 64]);
    }
  }

  lemma NoNextGroup(lower: seq<Word>, upper: seq<Word>, u: nat)
    requires Summary(lower, upper) && |lower| <= 64 * |upper|
    requires forall y | u < y < |lower| && y / 64 == u / 64 :: lower[y] == Zero()
    requires forall g | u / 64 < g < |upper| :: upper[g] == Zero()
    ensures forall y | u < y < |lower| :: lower[y] == Zero()
  {
    forall y | u < y < |lower|
      ensures lower[y] == Zero()
    {
      SummaryAt(lower, upper, y);
      ZeroIffNoBit(upper[y / 64]);
    }
  }

  lemma PrevGroup(lower: seq<Word>, upper: seq<Word>, u: nat, v: nat)
    requires Summary(lower, upper) && |lower| <= 64 * |upper| && u < |lower|
    requires v < u / 64 && v < |upper| && upper[v] != Zero()
    requires forall y | 0 <= y < u && y / 64 == u / 64 :: lower[y] == Zero()
    requires forall g | v < g < u / 64 && g < |upper| :: upper[g] == Zero()
    ensures var x := 64 * v + Bsr(upper[v]);
            x < u && lower[x] != Zero() && forall y | x < y < u :: lower[y] == Zero()
  {
    var x := 64 * v + Bsr(upper[v]);
    assert upper[v][Bsr(upper[v])];
    forall y | x < y < u
      ensures lower[y] == Zero()
    {
      SummaryAt(lower, upper, y);
      ZeroIffNoBit(upper[y / 64]);
    }
  }

  lemma NoPrevGroup(lower: seq<Word>, upper: seq<Word>, u: nat)
    requires Summary(lower, upper) && |lower| <= 64 * |upper| && u < |lower|
    requires forall y | 0 <= y < u && y / 64 == u / 64 :: lower[y] == Zero()
    requires forall g | 0 <= g < u / 64 && g < |upper| :: upper[g] == Zero()
    ensures forall y | 0 <= y < u :: lower[y] == Zero()
  {
    forall y: nat | y < u
      ensures lower[y] == Zero()
    {
      SummaryAt(lower, upper, y);
      ZeroIffNoBit(upper[y / 64]);
    }
  }

  // The lowest bit at or above i lies in the first non-zero word after an exhausted one.
  lemma LeastInWord(l0: seq<Word>, bits: set<nat>, i: nat, x: nat)
    requires Leaves(l0, bits) && i / 64 < x < |l0| && l0[x] != Zero()
    requires And(l0[i / 64], ShlSafe(Ones(), i % 64)) == Zero()
    requires forall y | i / 64 < y < x :: l0[y] == Zero()
    ensures var r := 64 * x + CountrZero(l0[x]);
            r in bits && i <= r && forall b | b in bits :: b < i || r <= b
  {
    var m := And(l0[i / 64], ShlSafe(Ones(), i % 64));
    var r := 64 * x + CountrZero(l0[x]);
    assert l0[x][CountrZero(l0[x])];
    forall b | b in bits
      ensures b < i || r <= b
    {
      LeafBit(l0, bits, b);
      ZeroIffNoBit(l0[b / 64]);
      ZeroIffNoBit(m);
      assert !m[b % 64];
    }
  }

  lemma NoneAbove(l0: seq<Word>, bits: set<nat>, i: nat)
    requires Leaves(l0, bits) && i / 64 < |l0|
    requires And(l0[i / 64], ShlSafe(Ones(), i % 64)) == Zero()
    requires forall y | i / 64 < y < |l0| :: l0[y] == Zero()
    ensures forall b | b in bits :: b < i
  {
    var m := And(l0[i / 64], ShlSafe(Ones(), i % 64));
    forall b | b in bits
      ensures b < i
    {
      LeafBit(l0, bits, b);
      ZeroIffNoBit(l0[b / 64]);
      ZeroIffNoBit(m);
      assert !m[b % 64];
    }
  }

  lemma GreatestInWord(l0: seq<Word>, bits: set<nat>, i: nat, x: nat)
    requires Leaves(l0, bits) && x < i / 64 < |l0| && l0[x] != Zero()
    requires And(l0[i / 64], ShrSafe(Ones(), 63 - i % 64)) == Zero()
    requires forall y | x < y < i / 64 :: l0[y] == Zero()
    ensures var r := 64 * x + Bsr(l0[x]);
            r in bits && r <= i && forall b | b in bits :: b <= r || i < b
  {
    var m := And(l0[i / 64], ShrSafe(Ones(), 63 - i % 64));
    var r := 64 * x + Bsr(l0[x]);
    assert l0[x][Bsr(l0[x])];
    forall b | b in bits
      ensures b <= r || i < b
    {
      LeafBit(l0, bits, b);
      ZeroIffNoBit(l0[b / 64]);
      ZeroIffNoBit(m);
      assert !m[b % 64];
    }
  }

  lemma NoneBelow(l0: seq<Word>, bits: set<nat>, i: nat)
    requires Leaves(l0, bits) && i / 64 < |l0|
    requires And(l0[i / 64], ShrSafe(Ones(), 63 - i % 64)) == Zero()
    requires forall y | 0 <= y < i / 64 :: l0[y] == Zero()
    ensures forall b | b in bits :: i < b
  {
    var m := And(l0[i / 64], ShrSafe(Ones(), 63 - i % 64));
    forall b | b in bits
      ensures i < b
    {
      LeafBit(l0, bits, b);
      ZeroIffNoBit(l0[b / 64]);
      ZeroIffNoBit(m);
      assert !m[b % 64];
    }
  }

  // The scans within the first word.
  lemma UpFirstWord(l0: seq<Word>, bits: set<nat>, i: nat, m: Word)
    requires Leaves(l0, bits) && i / 64 < |l0|
    requires m == And(l0[i / 64], ShlSafe(Ones(), i % 64)) && m != Zero()
    ensures var r := 64 * (i / 64) + CountrZero(m);
            r in bits && i <= r && forall b | b in bits :: b < i || r <= b
  {
    assert l0[i / 64][CountrZero(m)];
    forall b | b in bits && i <= b
      ensures 64 * (i / 64) + CountrZero(m) <= b
    {
      LeafBit(l0, bits, b);
      assert b / 64 == i / 64 ==> m[b % 64];
    }
  }

  lemma DownFirstWord(l0: seq<Word>, bits: set<nat>, i: nat, m: Word)
    requires Leaves(l0, bits) && i / 64 < |l0|
    requires m == And(l0[i / 64], ShrSafe(Ones(), 63 - i % 64)) && m != Zero()
    ensures var r := 64 * (i / 64) + Bsr(m);
            r in bits && r <= i && forall b | b in bits :: b <= r || i < b
  {
    assert l0[i / 64][Bsr(m)];
    forall b | b in bits && b <= i
      ensures b <= 64 * (i / 64) + Bsr(m)
    {
      LeafBit(l0, bits, b);
      assert b / 64 == i / 64 ==> m[b % 64];
    }
  }

  class LevelBitmap {
    const numBits: nat
    const l0: array<Word>
    const l1: array<Word>
    var l2: Word
    ghost var bits: set<nat>

    ghost predicate Valid()
      reads this, l0, l1
    {
      && numBits == 64 * l0.Length && 0 < numBits <= 0x4_0000
      && l1.Length == (l0.Length + 63) / 64
      && l0 != l1
      && Indexes(l0[..], l1[..], l2, bits)
      && (forall b | b in bits :: b < numBits)
    }

    constructor (numBits: nat)
      requires numBits % 64 == 0 && 0 < numBits <= 0x4_0000
      ensures Valid() && this.numBits == numBits && bits == {}
      ensures fresh(l0) && fresh(l1)
    {
      this.numBits := numBits;
      l0 := new Word[numBits / 64](_ => Zero());
      l1 := new Word[(numBits / 64 + 63) / 64](_ => Zero());
      l2 := Zero();
      bits := {};
    }

    method Set(i: nat)
      requires Valid() && i < numBits
      modifies this`l2, this`bits, l0, l1
      ensures Valid() && bits == old(bits) + {i}
    {
      ghost var a0, a1, a2 := l0[..], l1[..], [l2];
      l0[i / 64] := Or(l0[i / 64], One(i % 64));
      l1[i / 4096] := Or(l1[i / 4096], One((i / 64) % 64));
      l2 := Or(l2, One(i / 4096));
      bits := bits + {i};
      LeavesSet(a0, old(bits), i);
      assert (i / 64) / 64 == i / 4096;
      assert l1[i / 4096][(i / 64) % 64];
      SummaryUpdate(a0, a1, i / 64, l0[i / 64], l1[i / 4096]);
      assert l0[..] == a0[i / 64 := l0[i / 64]] && l1[..] == a1[i / 4096 := l1[i / 4096]];
      SummaryUpdate(a1, a2, i / 4096, l1[i / 4096], l2);
      assert [l2] == a2[0 := l2];
    }

    method Reset(i: nat)
      requires Valid() && i < numBits
      modifies this`l2, this`bits, l0, l1
      ensures Valid() && bits == old(bits) - {i}
    {
      ghost var a0, a1, a2 := l0[..], l1[..], [l2];
      var w, v := i / 64, i / 4096;
      assert w / 64 == v;
      l0[w] := And(l0[w], Not(One(i % 64)));
      bits := bits - {i};
      LeavesReset(a0, old(bits), i);
      assert l0[..] == a0[w := l0[w]];
      if l0[w] == Zero() {
        l1[v] := And(l1[v], Not(One(w % 64)));
        SummaryUpdate(a0, a1, w, l0[w], l1[v]);
        assert l1[..] == a1[v := l1[v]];
        if l1[v] == Zero() {
          l2 := And(l2, Not(One(v)));
          SummaryUpdate(a1, a2, v, l1[v], l2);
          assert [l2] == a2[0 := l2];
        } else {
          assert a1[v] != Zero() by {
            ZeroIffNoBit(l1[v]);
            ZeroIffNoBit(a1[v]);
          }
          SummaryKept(a1, a2, v, l1[v]);
        }
      } else {
        assert a0[w] != Zero() by {
          ZeroIffNoBit(l0[w]);
          ZeroIffNoBit(a0[w]);
        }
        SummaryKept(a0, a1, w, l0[w]);
      }
    }

    method Test(i: nat) returns (r: bool)
      requires Valid() && i < numBits
      ensures r <==> i in bits
    {
      LeafBit(l0[..], bits, i);
      r := l0[i / 64][i % 64];
    }

    // The least member from i upwards.
    method NextSet(i: nat) returns (r: nat)
      requires Valid()
      ensures r == NPOS ==> forall b | b in bits :: b < i
      ensures r != NPOS ==> r in bits && i <= r && forall b | b in bits :: b < i || r <= b
    {
      hide Summary, Leaves, And, ShlSafe, Ones, Zero, CountrZero;
      if i >= numBits { return NPOS; }
      var w := i / 64;
      // Within the leaf word of i ...
      var m := And(l0[w], ShlSafe(Ones(), i % 64));
      if m != Zero() {
        UpFirstWord(l0[..], bits, i, m);
        return 64 * w + CountrZero(m);
      }
      // ... then within its group of 64 words ...
      var w1 := w / 64;
      m := And(l1[w1], ShlSafe(Ones(), w % 64 + 1));
      ScanUp(l0[..], l1[..], w, m);
      if m != Zero() {
        w := 64 * w1 + CountrZero(m);
        LeastInWord(l0[..], bits, i, w);
        return 64 * w + CountrZero(l0[w]);
      }
      // ... then in the next group that has any.
      m := And(l2, ShlSafe(Ones(), w1 + 1));
      ScanUp(l1[..], [l2], w1, m);
      if m != Zero() {
        w1 := CountrZero(m);
        NextGroup(l0[..], l1[..], w, w1);
        w := 64 * w1 + CountrZero(l1[w1]);
        LeastInWord(l0[..], bits, i, w);
        return 64 * w + CountrZero(l0[w]);
      }
      NoNextGroup(l0[..], l1[..], w);
      NoneAbove(l0[..], bits, i);
      return NPOS;
    }

    // The greatest member from i downwards.
    method PrevSet(i: nat) returns (r: nat)
      requires Valid() && i < numBits
      ensures r == NPOS ==> forall b | b in bits :: i < b
      ensures r != NPOS ==> r in bits && r <= i && forall b | b in bits :: b <= r || i < b
    {
      hide Summary, Leaves, And, ShrSafe, Ones, Zero, Bsr;
      var w := i / 64;
      var m := And(l0[w], ShrSafe(Ones(), 63 - i % 64));
      if m != Zero() {
        DownFirstWord(l0[..], bits, i, m);
        return 64 * w + Bsr(m);
      }
      var w1 := w / 64;
      m := And(l1[w1], ShrSafe(Ones(), 64 - w % 64));
      ScanDown(l0[..], l1[..], w, m);
      if m != Zero() {
        w := 64 * w1 + Bsr(m);
        GreatestInWord(l0[..], bits, i, w);
        return 64 * w + Bsr(l0[w]);
      }
      m := And(l2, ShrSafe(Ones(), 63 - w1 + 1));
      ScanDown(l1[..], [l2], w1, m);
      if m != Zero() {
        w1 := Bsr(m);
        PrevGroup(l0[..], l1[..], w, w1);
        w := 64 * w1 + Bsr(l1[w1]);
        GreatestInWord(l0[..], bits, i, w);
        return 64 * w + Bsr(l0[w]);
      }
      NoPrevGroup(l0[..], l1[..], w);
      NoneBelow(l0[..], bits, i);
      return NPOS;
    }
  }
}
