/** 64-bit machine words as their bits, least significant first, and the operations on them. */
module Words {

  type Word = w: seq<bool> | |w| == 64 witness seq(64, i => false)

  function Zero(): Word {
    seq(64, i => false)
  }

  function Ones(): Word {
    seq(64, i => true)
  }

  // Only bit k is set.
  function One(k: nat): Word
    requires k < 64
  {
    seq(64, i => i == k)
  }

  function And(a: Word, b: Word): Word {
    seq(64, i requires 0 <= i < 64 => a[i] && b[i])
  }

  function Or(a: Word, b: Word): Word {
    seq(64, i requires 0 <= i < 64 => a[i] || b[i])
  }

  function Not(a: Word): Word {
    seq(64, i requires 0 <= i < 64 => !a[i])
  }

  // Left and right shift by s bits; zero from s = 64 on, as the guarded shifts make them.
  function ShlSafe(v: Word, s: nat): Word {
    seq(64, i requires 0 <= i < 64 => s <= i && v[i - s])
  }

  function ShrSafe(v: Word, s: nat): Word {
    seq(64, i requires 0 <= i < 64 => i + s < 64 && v[i + s])
  }

  // A word is zero exactly when none of its bits is set.
  lemma ZeroIffNoBit(w: Word)
    ensures w == Zero() <==> forall j: nat | j < 64 :: !w[j]
  {
    if forall j: nat | j < 64 :: !w[j] {
      assert w == Zero();
    }
  }

  // The lowest set bit of a non-zero word, which is its count of trailing zeros.
  function CountrZero(w: Word): (k: nat)
    requires w != Zero()
    ensures k < 64 && w[k] && forall j: nat | j < k :: !w[j]
  {
    ZeroIffNoBit(w);
    LowBitFrom(w, 0)
  }

  function LowBitFrom(w: Word, k: nat): (r: nat)
    requires k <= 64 && exists j: nat | j < 64 :: k <= j && w[j]
    ensures k <= r < 64 && w[r] && forall j: nat | k <= j < r :: !w[j]
    decreases 64 - k
  {
    if w[k] then k else LowBitFrom(w, k + 1)
  }

  // The highest set bit of a non-zero word.
  function Bsr(w: Word): (k: nat)
    requires w != Zero()
    ensures k < 64 && w[k] && forall j: nat | k < j < 64 :: !w[j]
  {
    ZeroIffNoBit(w);
    HighBitBelow(w, 64)
  }

  function HighBitBelow(w: Word, k: nat): (r: nat)
    requires k <= 64 && exists j: nat | j < 64 :: j < k && w[j]
    ensures r < k && w[r] && forall j: nat | r < j < k :: !w[j]
  {
    if w[k - 1] then k - 1 else HighBitBelow(w, k - 1)
  }
}
