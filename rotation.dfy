/** The logical order of a ring buffer: the slot that is `i` places after the
    head `h` lives at index `(h + i) % |s|` of the backing storage `s`. */
module Rotation {

  /** `s` read in ring order starting at `h`: from `h` to the end, then
      round to the start. */
  function Rotate<T>(s: seq<T>, h: nat): (r: seq<T>)
    requires h <= |s|
    ensures |r| == |s|
  {
    s[h..] + s[..h]
  }

  /** Slot `i` of the ring read from `h` is storage index `(h + i) % |s|`. */
  lemma RotateAt<T>(s: seq<T>, h: nat, i: nat)
    requires h < |s| && i < |s|
    ensures Rotate(s, h)[i] == s[(h + i) % |s|]
  {
    WrapMod(h + i, |s|);
  }

  /** Below twice the modulus, `%` subtracts the modulus at most once. */
  lemma WrapMod(x: int, c: int)
    requires 0 < c && 0 <= x < 2 * c
    ensures x % c == if x < c then x else x - c
  {
  }

  /** Reducing the offset first does not change the slot it picks: this is why
      a negative offset (Python's floor modulo) still names a slot of the window. */
  lemma ModShift(h: int, a: int, c: int)
    requires 0 < c
    ensures (h + a) % c == (h + a % c) % c
  {
    var r := (h + a % c) % c;
    var q := (h + a % c) / c;
    assert h + a % c == q * c + r;
    assert a == (a / c) * c + a % c;
    assert h + a == (q + a / c) * c + r;
    ModUnique(h + a, q + a / c, r, c);
  }

  /** Euclidean division has one remainder: any `q * c + r` with `0 <= r < c`
      leaves remainder `r`. */
  lemma ModUnique(y: int, q: int, r: int, c: int)
    requires 0 < c && 0 <= r < c && y == q * c + r
    ensures y % c == r
  {
    var k := y / c;
    assert y == k * c + y % c;
    if k > q {
      MulAtLeast(k - q, c);
    } else if k < q {
      MulAtLeast(q - k, c);
    }
  }

  lemma MulAtLeast(n: int, c: int)
    requires 1 <= n && 0 < c
    ensures n * c >= c
  {
  }

  /** Starting at index 0, ring order is storage order. */
  lemma RotateHome<T>(s: seq<T>)
    ensures Rotate(s, 0) == s
  {
  }

  /** Writing storage index `(h + d) % |s|` writes logical slot `d` and no other. */
  lemma RotateUpdate<T>(s: seq<T>, h: nat, d: nat, x: T)
    requires h < |s| && d < |s|
    ensures Rotate(s[(h + d) % |s| := x], h) == Rotate(s, h)[d := x]
  {
    var c := |s|;
    var written, updated := Rotate(s[(h + d) % c := x], h), Rotate(s, h)[d := x];
    forall i | 0 <= i < c
      ensures written[i] == updated[i]
    {
      RotateAt(s[(h + d) % c := x], h, i);
      RotateAt(s, h, i);
      WrapMod(h + i, c);
      WrapMod(h + d, c);
    }
  }

  /** Overwriting the head slot with `x` and stepping the head forward by one
      shifts the window left by one and brings `x` in at its far end. */
  lemma RotateStep<T>(s: seq<T>, h: nat, x: T)
    requires h < |s|
    ensures (h + 1) % |s| < |s|
    ensures Rotate(s[h := x], (h + 1) % |s|) == Rotate(s, h)[1..] + [x]
  {
    var c := |s|;
    WrapMod(h + 1, c);
    if h + 1 < c {
      assert s[h := x][h + 1..] == s[h + 1..];
      assert s[h := x][..h + 1] == s[..h] + [x];
    } else {
      assert s[h := x] == s[..h] + [x];
    }
  }
}
