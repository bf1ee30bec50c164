/** Machine words, wrap-around and the modular facts the lock-free protocols rest on. */
module Words {

  const TWO_32: nat := 0x1_0000_0000
  const TWO_64: nat := 0x1_0000_0000_0000_0000

  type byte = x: nat | x < 0x100
  type u32 = x: nat | x < TWO_32
  type u64 = x: nat | x < TWO_64

  datatype Option<+T> = None | Some(value: T)

  /** Unsigned subtraction as the hardware does it. */
  function Minus64(a: u64, b: u64): u64 { (a - b) % TWO_64 }

  function Minus32(a: u32, b: u32): u32 { (a - b) % TWO_32 }

  /** Two counts less than a whole modulus apart that reduce alike are one count. */
  lemma ModInjective(a: int, b: int, m: int)
    requires m > 0 && a % m == b % m && -m < a - b < m
    ensures a == b
  {
    ModSplit(a, m);
    ModSplit(b, m);
    var q := a / m - b / m;
    assert a - b == m * q by {
      assert m * (a / m) - m * (b / m) == m * q;
    }
    if q > 0 { MulAtLeast(m, q); }
    if q < 0 { MulAtLeast(m, -q); }
  }

  lemma ModSplit(a: int, m: int)
    requires m > 0
    ensures a == m * (a / m) + a % m && 0 <= a % m < m
  {}

  lemma MulAtLeast(m: int, q: int)
    requires m > 0 && q > 0
    ensures m * q >= m
  {}

  lemma QuotientNat(a: nat, m: nat)
    requires m > 0
    ensures a / m >= 0
  {
    ModSplit(a, m);
    MulBelow(m, a / m);
  }

  lemma MulBelow(m: int, q: int)
    requires m > 0
    ensures q < 0 ==> m * q <= -m
  {
    if q < 0 {
      MulAtLeast(m, -q);
      assert m * q == -(m * -q);
    }
  }

  /** A multiple of the modulus disappears. */
  lemma {:induction false} ModShift(a: int, q: int, m: int)
    requires m > 0
    ensures (a + q * m) % m == a % m
  {
    ModUnique(a + q * m, a / m + q, a % m, m) by {
      ModSplit(a, m);
      assert (a / m + q) * m == m * (a / m) + q * m;
    }
  }

  lemma ModUnique(a: int, q: int, r: int, m: int)
    requires m > 0 && a == q * m + r && 0 <= r < m
    ensures a % m == r && a / m == q
  {
    ModSplit(a, m);
    var d := a / m - q;
    assert r - a % m == m * d by {
      assert m * (a / m) - q * m == m * d;
    }
    if d > 0 { MulAtLeast(m, d); }
    if d < 0 { MulAtLeast(m, -d); }
  }

  /** Reducing first by a multiple of the divisor changes nothing: the slot a
      wrapped index selects is the slot the unwrapped count selects. */
  lemma ModOfMod(a: int, big: int, small: int)
    requires big > 0 && small > 0 && big % small == 0
    ensures (a % big) % small == a % small
  {
    ModSplit(a, big);
    ModSplit(big, small);
    var k := big / small;
    assert a == a % big + (k * (a / big)) * small by {
      assert big == small * k;
      assert big * (a / big) == (small * k) * (a / big) == (k * (a / big)) * small;
    }
    ModShift(a % big, k * (a / big), small);
  }

  /** Distinct counts within one lap select distinct slots. */
  lemma SlotsDistinct(i: int, j: int, m: int)
    requires m > 0 && i != j && -m < i - j < m
    ensures i % m != j % m
  {
    if i % m == j % m { ModInjective(i, j, m); }
  }

  lemma Reduced(a: int, m: int)
    requires m > 0
    ensures (a % m) % m == a % m
  {
    ModUnique(a % m, 0, a % m, m);
  }

  lemma NextSlot(a: int, b: int, m: int)
    requires m > 0 && a % m == b % m
    ensures (a + 1) % m == (b + 1) % m
  {
    ModSplit(a, m);
    ModSplit(b, m);
    ModShift(a % m + 1, a / m, m);
    ModShift(a % m + 1, b / m, m);
  }

  lemma NextMod(k: nat, m: int)
    requires m > 0
    ensures (k % m + 1) % m == (k + 1) % m
  {
    Reduced(k, m);
    NextSlot(k % m, k, m);
  }

  /** Less than a lap apart, the distance survives the wrap. */
  lemma MinusMod(w: nat, r: nat, m: int)
    requires m > 0 && r <= w < r + m
    ensures (w % m - r % m) % m == w - r
  {
    ModSplit(w, m);
    ModSplit(r, m);
    var q := w / m - r / m;
    assert w % m - r % m == (w - r) - q * m by {
      assert m * (w / m) - m * (r / m) == m * q;
    }
    ModShift(w % m - r % m, q, m);
    ModUnique(w - r, 0, w - r, m);
  }

  lemma SameMod(a: nat, b: nat, m: int)
    requires m > 0 && a <= b < a + m
    ensures a % m == b % m <==> a == b
  {
    if a % m == b % m { ModInjective(b, a, m); }
  }

  /** Going back the wrapped distance arrives. */
  lemma BackMod(write: nat, read: nat, m: int)
    requires write < m && read < m
    ensures (read + (write - read) % m) % m == write
  {
    if write >= read {
      ModUnique(write - read, 0, write - read, m);
      ModUnique(write, 0, write, m);
    } else {
      ModUnique(write - read, -1, write - read + m, m);
      ModUnique(write + m, 1, write, m);
    }
  }

  /** A slice of a slice is a slice. */
  lemma SliceSlice<T>(b: seq<T>, i: nat, j: nat, k: nat, l: nat)
    requires i <= j <= |b| && k <= l <= j - i
    ensures b[i..j][k..l] == b[i + k..i + l]
  {
    var left, right := b[i..j][k..l], b[i + k..i + l];
    assert |left| == |right|;
    forall x | 0 <= x < l - k ensures left[x] == right[x] {}
  }
}
