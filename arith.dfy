/** Integer facts about page-sized address arithmetic: where a page starts and
    ends, how an address splits into page and offset, and that distinct page
    slots never overlap. */
module Arith {

  lemma MulMonotone(a: nat, b: nat, m: nat)
    requires a <= b
    ensures a * m <= b * m
  {
  }

  lemma DivMonotone(a: nat, b: nat, d: nat)
    requires d > 0 && a <= b
    ensures a / d <= b / d
  {
    if a / d > b / d {
      MulMonotone(b / d + 1, a / d, d);
      assert false;
    }
  }

  /** A page whose index is below `x / ps` ends at or before byte `x`. */
  lemma PageEndsBefore(i: nat, x: nat, ps: nat)
    requires ps > 0 && i < x / ps
    ensures i * ps + ps <= x
  {
    MulMonotone(i + 1, x / ps, ps);
    assert (x / ps) * ps + x % ps == x;
  }

  /** Page `i` of an area of `n` pages lies inside the area's `n * ps` bytes. */
  lemma PageWithin(i: nat, n: nat, ps: nat)
    requires i < n
    ensures i * ps + ps <= n * ps
  {
    MulMonotone(i + 1, n, ps);
  }

  /** `address / ps < n` holds exactly when the address is below `n * ps`. */
  lemma DivBelow(address: nat, n: nat, ps: nat)
    requires ps > 0
    ensures address / ps < n <==> address < n * ps
  {
    var q, r := address / ps, address % ps;
    assert address == q * ps + r;
    if q < n {
      PageWithin(q, n, ps);
    } else {
      MulMonotone(n, q, ps);
    }
  }

  /** For a bound `x` that is a multiple of `ps`, comparing a page index with
      `x / ps` is the same as comparing the page's first byte with `x`. */
  lemma AlignedBelow(i: nat, x: nat, ps: nat)
    requires ps > 0 && x % ps == 0
    ensures i < x / ps <==> i * ps < x
  {
    if i < x / ps {
      PageEndsBefore(i, x, ps);
    } else {
      MulMonotone(x / ps, i, ps);
      assert (x / ps) * ps == x;
    }
  }

  /** Byte `off` of page `i` splits back into page `i` and offset `off`. */
  lemma SplitOfByte(i: nat, off: nat, ps: nat)
    requires off < ps
    ensures (i * ps + off) / ps == i && (i * ps + off) % ps == off
  {
    var a := i * ps + off;
    var q, r := a / ps, a % ps;
    assert q * ps + r == a;
    if q < i {
      MulMonotone(q + 1, i, ps);
      assert false;
    } else if q > i {
      MulMonotone(i + 1, q, ps);
      assert false;
    }
  }

  /** Bytes of two distinct page-sized slots are distinct. */
  lemma SlotsDisjoint(f: nat, g: nat, j: nat, k: nat, ps: nat)
    requires f != g && j < ps && k < ps
    ensures f * ps + j != g * ps + k
  {
    if f < g {
      MulMonotone(f + 1, g, ps);
    } else {
      MulMonotone(g + 1, f, ps);
    }
  }
}
