/** The unsigned clamp of main.c, used to fit the framebuffer size into the surface's
    minimum and maximum image extent. */
module Clamp {

  const U32_LIMIT: nat := 0x1_0000_0000

  type U32 = n: nat | n < U32_LIMIT

  /** clamp(n, min, max): the lower bound is tested first, so when min > max a value
      below min still comes back as min. */
  function Clamp(n: U32, lo: U32, hi: U32): (r: U32)
    ensures r == lo || r == hi || r == n
    ensures n < lo ==> r == lo
    ensures lo <= n && n > hi ==> r == hi
    ensures lo <= n <= hi ==> r == n
    ensures lo <= hi ==> lo <= r <= hi
  {
    if n < lo then lo
    else if n > hi then hi
    else n
  }

  /** Clamping a clamped value changes nothing when the interval is not empty. */
  lemma ClampIdempotent(n: U32, lo: U32, hi: U32)
    requires lo <= hi
    ensures Clamp(Clamp(n, lo, hi), lo, hi) == Clamp(n, lo, hi)
  {
  }

  /** With lo <= hi the result is the point of [lo, hi] nearest to n. */
  lemma ClampNearest(n: U32, lo: U32, hi: U32, m: U32)
    requires lo <= m <= hi
    ensures var r := Clamp(n, lo, hi);
      (if r <= n then n - r else r - n) <= (if m <= n then n - m else m - n)
  {
  }

  /** An empty interval (lo > hi) maps everything to one of its ends: lo below lo,
      hi from lo upwards. */
  lemma ClampEmptyInterval(n: U32, lo: U32, hi: U32)
    requires lo > hi
    ensures Clamp(n, lo, hi) == if n < lo then lo else hi
  {
  }
}
