/** The map from request sizes in bytes to object sizes in granules, filled on demand. */
module SizeMap {

  const GRANULE_BYTES := 16
  const HBLK_GRANULES := 256
  const MAXOBJGRANULES := 128
  const MAXOBJBYTES := MAXOBJGRANULES * GRANULE_BYTES
  const TINY_FREELISTS := 25

  /** BYTES_TO_GRANULES after adding what makes an address one past the end valid. */
  function RoundedUpGranules(n: nat, extra: nat): nat {
    (n + GRANULE_BYTES - 1 + extra) / GRANULE_BYTES
  }

  /** An object of `g` granules has room for `n` bytes and the extra one. */
  predicate LargeEnough(n: nat, g: nat, extra: nat) {
    n + extra <= g * GRANULE_BYTES && 0 < g <= MAXOBJGRANULES
  }

  /** How many objects of `k` granules fit a block. */
  function Fit(k: nat): nat
    requires k > 0
  {
    HBLK_GRANULES / k
  }

  /** The largest even object size that fits a block as often as `g`. */
  function Widened(g: nat): nat
    requires 0 < g <= MAXOBJGRANULES
  {
    var w := Fit(Fit(g));
    w - w % 2
  }

  lemma QuotientBounds(a: nat, b: nat)
    requires b > 0
    ensures a / b * b <= a < (a / b + 1) * b
  {
  }

  lemma FitBounds(k: nat)
    requires k > 0
    ensures Fit(k) * k <= HBLK_GRANULES < (Fit(k) + 1) * k
    ensures k <= HBLK_GRANULES ==> Fit(k) > 0
    ensures k <= MAXOBJGRANULES ==> Fit(k) >= 2
  {
    QuotientBounds(HBLK_GRANULES, k);
  }

  lemma Products(p: nat, a: nat, b: nat)
    requires a <= b
    ensures p * a <= p * b && a * p <= b * p
  {
  }

  lemma NotLess(a: nat, k: nat, g: nat, w: nat)
    requires k * g <= a < (w + 1) * k
    ensures g <= w
  {
    if w < g { Products(k, w + 1, g); }
  }

  lemma NotMore(a: nat, g: nat, w: nat, n: nat, m: nat)
    requires g <= w && m * w <= a < (n + 1) * g
    ensures m <= n
  {
    if n < m {
      Products(w, n + 1, m);
      Products(n + 1, g, w);
    }
  }

  lemma FitTwice(g: nat)
    requires 0 < g <= MAXOBJGRANULES
    ensures Fit(g) > 0 && g <= Fit(Fit(g)) <= MAXOBJGRANULES
  {
    hide Fit;
    FitBounds(g);
    var n := Fit(g);
    FitBounds(n);
    NotLess(HBLK_GRANULES, n, g, Fit(n));
    NotMore(HBLK_GRANULES, 2, n, MAXOBJGRANULES, Fit(n));
  }

  /** Sizes between `g` and the widest that fits as often fit as often. */
  lemma FitBetween(g: nat, v: nat)
    requires 0 < g <= MAXOBJGRANULES && Fit(g) > 0 && g <= v <= Fit(Fit(g))
    ensures Fit(v) == Fit(g)
  {
    hide Fit;
    var n := Fit(g);
    FitBounds(g);
    FitBounds(n);
    FitBounds(v);
    Products(n, v, Fit(n));
    NotLess(HBLK_GRANULES, v, n, Fit(v));
    NotMore(HBLK_GRANULES, g, v, n, Fit(v));
  }

  /** Widening keeps the number of objects in a block and never makes an even size smaller. */
  lemma WidenedFits(g: nat)
    requires 0 < g <= MAXOBJGRANULES && g % 2 == 0
    ensures g <= Widened(g) <= MAXOBJGRANULES && Widened(g) % 2 == 0
    ensures Fit(Widened(g)) == Fit(g)
  {
    hide Fit;
    FitTwice(g);
    var w := Fit(Fit(g));
    assert g <= w - w % 2;
    FitBetween(g, w - w % 2);
  }

  /** Sizes beyond the widest that fits as often fit less often. */
  lemma FitBeyond(g: nat, w: nat)
    requires 0 < g <= MAXOBJGRANULES && Fit(g) > 0 && Fit(Fit(g)) < w
    ensures Fit(w) < Fit(g)
  {
    hide Fit;
    var n := Fit(g);
    FitBounds(n);
    FitBounds(w);
    Products(n, Fit(n) + 1, w);
    if Fit(w) >= n { Products(w, n, Fit(w)); }
  }

  /** The size tried when smaller sizes are filled in already: an eighth more than the lowest
      new entry needs, but no less than what was asked for. */
  function Spread(low: nat, orig: nat, extra: nat): (g: nat)
    ensures orig <= g
    ensures RoundedUpGranules(low, extra) * 9 / 8 <= g
    ensures g == orig || g == RoundedUpGranules(low, extra) * 9 / 8
  {
    var g := RoundedUpGranules(low, extra) + RoundedUpGranules(low, extra) / 8;
    if g < orig then orig else g
  }

  /** A guess made even and capped. */
  function Evened(guess: nat): nat {
    if guess >= MAXOBJGRANULES then MAXOBJGRANULES else guess + guess % 2
  }

  /** The size `g` fits a block as often as the evened guess, and no larger even size does. */
  ghost predicate Best(guess: nat, g: nat) {
    var e := Evened(guess);
    && 0 < e <= g <= MAXOBJGRANULES && g % 2 == 0 && Fit(g) == Fit(e)
    && forall w {:trigger Fit(w)} :: g < w && w % 2 == 0 ==> Fit(w) < Fit(e)
  }

  /** The size chosen from a first guess: even, within bounds, and as large as fits. */
  function Chosen(guess: nat): (g: nat)
    requires guess > 0
    ensures Best(guess, g)
  {
    var even := guess + 1 - (guess + 1) % 2;
    var capped := if even > MAXOBJGRANULES then MAXOBJGRANULES else even;
    ChosenBest(guess, capped);
    Widened(capped)
  }

  lemma ChosenBest(guess: nat, e: nat)
    requires guess > 0 && e == Evened(guess)
    ensures Best(guess, Widened(e))
  {
    WidenedFits(e);
    FitTwice(e);
    hide Fit;
    var g := Widened(e);
    forall w | g < w && w % 2 == 0 ensures Fit(w) < Fit(e) { FitBeyond(e, w); }
  }

  lemma RoundedEnough(n: nat, extra: nat)
    ensures n + extra <= RoundedUpGranules(n, extra) * GRANULE_BYTES
  {
  }

  class Map {
    const extra: nat
    const sizes: array<nat>

    /** Every entry that is filled in is large enough, and the small sizes are filled in. */
    ghost predicate Valid()
      reads sizes
    {
      && extra <= 1 && sizes.Length == MAXOBJBYTES + 1
      && (forall i :: 0 <= i < sizes.Length && sizes[i] != 0 ==> LargeEnough(i, sizes[i], extra))
      && (forall i :: 0 <= i <= (TINY_FREELISTS - 1) * GRANULE_BYTES - extra ==> sizes[i] != 0)
    }

    /** GC_init_size_map */
    constructor (extra: nat)
      requires extra <= 1
      ensures Valid() && this.extra == extra && fresh(sizes)
      ensures forall i :: 0 < i <= (TINY_FREELISTS - 1) * GRANULE_BYTES - extra ==>
        sizes[i] == RoundedUpGranules(i, extra) < TINY_FREELISTS
      ensures sizes[0] == 1
      ensures forall i :: (TINY_FREELISTS - 1) * GRANULE_BYTES - extra < i < sizes.Length ==> sizes[i] == 0
    {
      this.extra := extra;
      sizes := new nat[MAXOBJBYTES + 1](_ => 0);
      new;
      sizes[0] := 1;
      var i := 1;
      while i <= (TINY_FREELISTS - 1) * GRANULE_BYTES - extra
        invariant 1 <= i <= (TINY_FREELISTS - 1) * GRANULE_BYTES - extra + 1
        invariant sizes[0] == 1
        invariant forall j :: 0 < j < i ==> sizes[j] == RoundedUpGranules(j, extra) < TINY_FREELISTS
        invariant forall j :: i <= j < sizes.Length ==> sizes[j] == 0
      {
        sizes[i] := RoundedUpGranules(i, extra);
        i := i + 1;
      }
    }

    /** GC_extend_size_map: the entries from `low` on are filled in with `g`.  Where the size an
        eighth smaller than that of `i` is not in use yet, they reach back by a quarter and the
        size of `i` is aimed at; else they start behind it and the size is spread out. */
    method Extend(i: nat) returns (ghost low: nat, ghost g: nat)
      requires Valid() && i <= MAXOBJBYTES - extra && sizes[i] == 0
      modifies sizes
      ensures Valid() && sizes[i] != 0
      ensures
        var orig := RoundedUpGranules(i, extra);
        && old(LowestFrom(FirstTried(orig), low)) && low <= i
        && Best(if old(SmallerUnused(orig)) then orig else Spread(low, orig, extra), g)
      ensures forall j :: 0 <= j < sizes.Length ==>
        sizes[j] == if low <= j <= g * GRANULE_BYTES - extra then g else old(sizes[j])
    {
      hide RoundedUpGranules, Fit;
      var start, orig, unused := LowLimit(i);
      low := start;
      var size := Chosen(if unused then orig else Spread(start, orig, extra));
      g := size;
      RoundedEnough(i, extra);
      var byteSz := size * GRANULE_BYTES - extra;
      var j := start;
      while j <= byteSz
        invariant low <= j <= byteSz + 1 <= MAXOBJBYTES + 1
        invariant forall k :: low <= k < j ==> sizes[k] == g
        invariant forall k :: 0 <= k < sizes.Length && !(low <= k < j) ==> sizes[k] == old(sizes[k])
      {
        sizes[j] := size;
        j := j + 1;
      }
    }

    /** No entry is filled in for the size an eighth smaller. */
    ghost predicate SmallerUnused(orig: nat)
      requires Valid() && orig <= MAXOBJGRANULES
      reads sizes
    {
      sizes[orig * GRANULE_BYTES - orig * GRANULE_BYTES / 8] == 0
    }

    /** Where the search for the lowest entry starts. */
    ghost function FirstTried(orig: nat): nat
      requires Valid() && orig <= MAXOBJGRANULES
      reads sizes
    {
      if SmallerUnused(orig) then orig * GRANULE_BYTES - orig * GRANULE_BYTES / 4
      else orig * GRANULE_BYTES - orig * GRANULE_BYTES / 8 + 1
    }

    /** The first empty entry at or behind `start`. */
    ghost predicate LowestFrom(start: nat, low: nat)
      reads sizes
    {
      start <= low < sizes.Length && sizes[low] == 0 && forall j :: start <= j < low ==> sizes[j] != 0
    }

    /** The lowest entry to fill in, and the size of `i` in granules. */
    method LowLimit(i: nat) returns (low: nat, orig: nat, unused: bool)
      requires Valid() && i <= MAXOBJBYTES - extra && sizes[i] == 0
      ensures orig == RoundedUpGranules(i, extra) && 0 < orig <= MAXOBJGRANULES
      ensures (unused <==> SmallerUnused(orig)) && low <= i && LowestFrom(FirstTried(orig), low)
    {
      orig := RoundedUpGranules(i, extra);
      var byteSz := orig * GRANULE_BYTES;
      var smaller := byteSz - byteSz / 8;
      var muchSmaller := byteSz - byteSz / 4;
      assert i > (TINY_FREELISTS - 1) * GRANULE_BYTES - extra;
      unused := sizes[smaller] == 0;
      low := if unused then muchSmaller else smaller + 1;
      while sizes[low] != 0
        invariant FirstTried(orig) <= low <= i
        invariant forall j :: FirstTried(orig) <= j < low ==> sizes[j] != 0
        decreases i - low
      {
        low := low + 1;
      }
    }
  }
}
