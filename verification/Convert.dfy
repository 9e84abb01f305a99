/** Warmth and brightness scales: the lamp's percentages against Home Assistant's Kelvin
    and 0-255, and why an exchange of values settles instead of drifting. */
module Convert {
  import opened Bulbs

  /** Go's integer division, which truncates towards zero. */
  function GoDiv(a: int, b: int): int
    requires b != 0
  {
    if a >= 0 then (if b > 0 then a / b else -(a / -b))
    else (if b > 0 then -(-a / b) else -a / -b)
  }

  datatype Config = Config(minKelvin: int, maxKelvin: int)

  const DEFAULTS := Config(2700, 6500)

  function WithDefaults(c: Config): Config {
    Config(if c.minKelvin <= 0 then DEFAULTS.minKelvin else c.minKelvin,
           if c.maxKelvin <= 0 then DEFAULTS.maxKelvin else c.maxKelvin)
  }

  function Span(c: Config): int {
    WithDefaults(c).maxKelvin - WithDefaults(c).minKelvin
  }

  function KelvinFromPercent(c: Config, pct: Byte): int {
    var p := if pct > 100 then 100 else pct;
    WithDefaults(c).minKelvin + GoDiv(p * Span(c) + 50, 100)
  }

  /** The percentage before it is narrowed to a byte. */
  function PercentFromKelvin(c: Config, kelvin: int): int {
    var cfg := WithDefaults(c);
    if Span(c) <= 0 then 0
    else if kelvin <= cfg.minKelvin then 0
    else if kelvin >= cfg.maxKelvin then 100
    else GoDiv((kelvin - cfg.minKelvin) * 100 + GoDiv(Span(c), 2), Span(c))
  }

  // ---- rounding ---------------------------------------------------------------------

  /** q is a/d rounded half up. */
  predicate Rounds(q: int, a: int, d: int) {
    var x := q * d;
    2 * x <= 2 * a + d < 2 * x + 2 * d
  }

  lemma DivideRounds(a: int, d: int)
    requires a >= 0 && d > 0
    ensures Rounds((a + d / 2) / d, a, d)
  {
    var n := a + d / 2;
    var q := n / d;
    assert n == q * d + n % d;
  }

  lemma {:induction false} NextMultiple(r: int, q: int, d: int)
    requires d > 0
    ensures r < q ==> r * d + d <= q * d
    decreases q - r
  {
    if r < q {
      assert (r + 1) * d == r * d + d;
      NextMultiple(r + 1, q, d);
    }
  }

  lemma RoundsMonotone(q: int, r: int, a: int, b: int, d: int)
    requires d > 0 && a <= b && Rounds(q, a, d) && Rounds(r, b, d)
    ensures q <= r
  {
    NextMultiple(r, q, d);
  }

  lemma RoundsUnique(q: int, r: int, a: int, d: int)
    requires d > 0 && Rounds(q, a, d) && Rounds(r, a, d)
    ensures q == r
  {
    RoundsMonotone(q, r, a, a, d);
    RoundsMonotone(r, q, a, a, d);
  }

  /** The Kelvin above the warmest setting, for a percentage within range. */
  lemma KelvinRounds(c: Config, p: Byte) returns (k: int)
    requires Span(c) > 0 && p <= 100
    ensures k == KelvinFromPercent(c, p) - WithDefaults(c).minKelvin
    ensures Rounds(k, p * Span(c), 100) && 0 <= k <= Span(c)
  {
    var s := Span(c);
    var a := p * s;
    assert 0 <= a <= 100 * s;
    k := (a + 50) / 100;
    DivideRounds(a, 100);
  }

  lemma PercentWithin(p: int, k: int, s: int)
    requires s > 0 && 0 <= k <= s && Rounds(p, k * 100, s)
    ensures 0 <= p <= 100
  {
    RoundsMonotone(0, p, 0, k * 100, s);
    RoundsMonotone(p, 100, k * 100, s * 100, s);
  }

  /** The percentage for a Kelvin value within range, narrowed without loss. */
  lemma PercentRounds(c: Config, kelvin: int) returns (p: int)
    requires Span(c) > 0 && 0 <= kelvin - WithDefaults(c).minKelvin <= Span(c)
    ensures p == PercentFromKelvin(c, kelvin)
    ensures Rounds(p, (kelvin - WithDefaults(c).minKelvin) * 100, Span(c)) && 0 <= p <= 100
  {
    var k, s := kelvin - WithDefaults(c).minKelvin, Span(c);
    if 0 < k < s {
      DivideRounds(k * 100, s);
      p := (k * 100 + s / 2) / s;
    } else if k == 0 {
      p := 0;
    } else {
      p := 100;
    }
    assert Rounds(p, k * 100, s);
    PercentWithin(p, k, s);
  }

  /** The narrowing to uint8 at the end of PercentFromKelvin never truncates. */
  lemma PercentIsAByte(c: Config, kelvin: int)
    ensures 0 <= PercentFromKelvin(c, kelvin) <= 100
  {
    if Span(c) > 0 && 0 <= kelvin - WithDefaults(c).minKelvin <= Span(c) {
      var p := PercentRounds(c, kelvin);
    }
  }

  // ---- the scale itself ---------------------------------------------------------------

  /** q is within half a unit of a / d. */
  predicate Nearest(q: int, a: int, d: int) {
    var x := q * d;
    2 * x - d <= 2 * a <= 2 * x + d
  }

  /** With both bounds configured, 0 percent is the warmest Kelvin value, 100 percent (or
      more) the coolest, and everything between is the nearest to its share of the way. */
  lemma KelvinMeans(c: Config, pct: Byte)
    requires 0 < c.minKelvin < c.maxKelvin
    ensures KelvinFromPercent(c, 0) == c.minKelvin
    ensures pct >= 100 ==> KelvinFromPercent(c, pct) == c.maxKelvin
    ensures pct <= 100 ==>
              Nearest(KelvinFromPercent(c, pct) - c.minKelvin, pct * (c.maxKelvin - c.minKelvin), 100)
  {
    if pct <= 100 {
      var k := KelvinRounds(c, pct);
    }
  }

  lemma PercentMeans(c: Config, kelvin: int)
    requires 0 < c.minKelvin < c.maxKelvin
    ensures kelvin <= c.minKelvin ==> PercentFromKelvin(c, kelvin) == 0
    ensures kelvin >= c.maxKelvin ==> PercentFromKelvin(c, kelvin) == 100
    ensures c.minKelvin <= kelvin <= c.maxKelvin ==>
              Nearest(PercentFromKelvin(c, kelvin), (kelvin - c.minKelvin) * 100, c.maxKelvin - c.minKelvin)
  {
    if c.minKelvin <= kelvin <= c.maxKelvin {
      var p := PercentRounds(c, kelvin);
    }
  }

  /** A bound left blank stands for the captured hardware's: 2700 and 6500 Kelvin. */
  lemma BlankBounds(c: Config, pct: Byte, kelvin: int)
    ensures c.minKelvin <= 0 ==>
              && KelvinFromPercent(c, pct) == KelvinFromPercent(c.(minKelvin := 2700), pct)
              && PercentFromKelvin(c, kelvin) == PercentFromKelvin(c.(minKelvin := 2700), kelvin)
    ensures c.maxKelvin <= 0 ==>
              && KelvinFromPercent(c, pct) == KelvinFromPercent(c.(maxKelvin := 6500), pct)
              && PercentFromKelvin(c, kelvin) == PercentFromKelvin(c.(maxKelvin := 6500), kelvin)
  {
  }

  /** Bounds that leave no span: every Kelvin value is 0 percent, and reversed ones put 100
      percent one Kelvin above the lower, by the truncation of Go's division. */
  lemma NoSpan(c: Config, kelvin: int)
    requires 0 < c.maxKelvin <= c.minKelvin
    ensures PercentFromKelvin(c, kelvin) == 0
    ensures KelvinFromPercent(c, 0) == c.minKelvin
    ensures KelvinFromPercent(c, 100) == if c.maxKelvin < c.minKelvin then c.maxKelvin + 1 else c.maxKelvin
  {
  }

  // ---- stability ----------------------------------------------------------------------

  function RoundTrip(c: Config, pct: Byte): int {
    PercentFromKelvin(c, KelvinFromPercent(c, pct))
  }

  /** A wide span keeps every percentage; a narrow one keeps every Kelvin value. */
  lemma WideKeepsPercent(c: Config, p: Byte)
    requires Span(c) >= 100 && p <= 100
    ensures RoundTrip(c, p) == p
  {
    var s := Span(c);
    var k := KelvinRounds(c, p);
    var q := PercentRounds(c, KelvinFromPercent(c, p));
    assert Rounds(p, k * 100, s);
    RoundsUnique(p, q, k * 100, s);
  }

  lemma NarrowKeepsKelvin(c: Config, kelvin: int)
    requires 0 < Span(c) <= 100 && 0 <= kelvin - WithDefaults(c).minKelvin <= Span(c)
    ensures 0 <= PercentFromKelvin(c, kelvin) <= 100
    ensures KelvinFromPercent(c, PercentFromKelvin(c, kelvin)) == kelvin
  {
    var s, k := Span(c), kelvin - WithDefaults(c).minKelvin;
    var p := PercentRounds(c, kelvin);
    var k' := KelvinRounds(c, p);
    assert Rounds(k, p * s, 100);
    RoundsUnique(k, k', p * s, 100);
  }

  /** Percent to Kelvin to percent to Kelvin is percent to Kelvin: a value Home Assistant
      shows survives the exchange, for every configured span. */
  lemma KelvinSettles(c: Config, pct: Byte)
    requires Span(c) > 0
    ensures 0 <= RoundTrip(c, pct) <= 100
    ensures KelvinFromPercent(c, RoundTrip(c, pct)) == KelvinFromPercent(c, pct)
  {
    var p: Byte := if pct > 100 then 100 else pct;
    assert KelvinFromPercent(c, pct) == KelvinFromPercent(c, p);
    if Span(c) >= 100 {
      WideKeepsPercent(c, p);
    } else {
      var k := KelvinRounds(c, p);
      NarrowKeepsKelvin(c, KelvinFromPercent(c, p));
    }
  }

  /** Kelvin to percent to Kelvin to percent is Kelvin to percent: one exchange settles,
      whatever Home Assistant sent. */
  lemma PercentSettles(c: Config, kelvin: int)
    requires Span(c) > 0
    ensures 0 <= PercentFromKelvin(c, kelvin) <= 100
    ensures RoundTrip(c, PercentFromKelvin(c, kelvin)) == PercentFromKelvin(c, kelvin)
  {
    PercentIsAByte(c, kelvin);
    var p := PercentFromKelvin(c, kelvin);
    if Span(c) >= 100 {
      WideKeepsPercent(c, p);
    } else {
      var min := WithDefaults(c).minKelvin;
      var inside := if kelvin < min then min else if kelvin > min + Span(c) then min + Span(c) else kelvin;
      assert PercentFromKelvin(c, inside) == p;
      NarrowKeepsKelvin(c, inside);
    }
  }

  lemma KelvinMonotone(c: Config, p: Byte, q: Byte)
    requires Span(c) > 0 && p <= q
    ensures KelvinFromPercent(c, p) <= KelvinFromPercent(c, q)
  {
    var p': Byte, q': Byte := if p > 100 then 100 else p, if q > 100 then 100 else q;
    var a := KelvinRounds(c, p');
    var b := KelvinRounds(c, q');
    var s := Span(c);
    NextMultiple(p', q', s);
    RoundsMonotone(a, b, p' * s, q' * s, 100);
  }

  lemma PercentMonotone(c: Config, k: int, l: int)
    requires Span(c) > 0 && k <= l
    ensures PercentFromKelvin(c, k) <= PercentFromKelvin(c, l)
  {
    var min := WithDefaults(c).minKelvin;
    PercentIsAByte(c, k);
    PercentIsAByte(c, l);
    if min < k && l < min + Span(c) {
      var p := PercentRounds(c, k);
      var q := PercentRounds(c, l);
      RoundsMonotone(p, q, (k - min) * 100, (l - min) * 100, Span(c));
    }
  }

  predicate KeepsEveryPercent(c: Config) {
    forall p: Byte :: p <= 100 ==> RoundTrip(c, p) == p
  }

  /** If no percentage is lost, each step of one percent moves the Kelvin value. */
  lemma {:induction false} KeptPercentsClimb(c: Config, p: Byte)
    requires Span(c) > 0 && p <= 100 && KeepsEveryPercent(c)
    ensures KelvinFromPercent(c, p) >= WithDefaults(c).minKelvin + p
    decreases p
  {
    if p == 0 {
      var k := KelvinRounds(c, 0);
    } else {
      KeptPercentsClimb(c, p - 1);
      KelvinMonotone(c, p - 1, p);
      assert RoundTrip(c, p) == p && RoundTrip(c, p - 1) == p - 1;
    }
  }

  /** The lamp's own percentage survives a trip through Kelvin for every setting exactly
      when the configured span is at least 100 Kelvin. */
  lemma PercentKeptExactly(c: Config)
    requires Span(c) > 0
    ensures KeepsEveryPercent(c) <==> Span(c) >= 100
  {
    if Span(c) >= 100 {
      forall p: Byte | p <= 100 ensures RoundTrip(c, p) == p {
        WideKeepsPercent(c, p);
      }
    } else if KeepsEveryPercent(c) {
      KeptPercentsClimb(c, 100);
      var k := KelvinRounds(c, 100);
    }
  }

  // ---- brightness ---------------------------------------------------------------------

  const HA_MAX := 255

  function BrightnessToHA(pct: Byte): int {
    (if pct > 100 then 100 else pct) * HA_MAX / 100
  }

  function BrightnessFromHA(v: int): Byte {
    if v <= 0 then 0 else if v >= HA_MAX then 100 else (v * 100 + HA_MAX / 2) / HA_MAX
  }

  /** Brightness for Home Assistant is the lamp's share of 255 rounded down, and the lamp's
      is the nearest percentage; both stay within their scale. */
  lemma BrightnessMeans(pct: Byte, v: int)
    ensures pct <= 100 ==> var h := BrightnessToHA(pct); 0 <= h <= 255 && h * 100 <= pct * 255 < h * 100 + 100
    ensures pct >= 100 ==> BrightnessToHA(pct) == 255
    ensures v <= 0 ==> BrightnessFromHA(v) == 0
    ensures v >= 255 ==> BrightnessFromHA(v) == 100
    ensures 0 <= v <= 255 ==> BrightnessFromHA(v) <= 100 && Nearest(BrightnessFromHA(v), v * 100, 255)
  {
  }

  /** Every lamp percentage survives Home Assistant's scale, so a slider settles after
      one exchange whatever it sent. */
  lemma BrightnessSettles(pct: Byte, v: int)
    ensures pct <= 100 ==> BrightnessFromHA(BrightnessToHA(pct)) == pct
    ensures BrightnessFromHA(BrightnessToHA(BrightnessFromHA(v))) == BrightnessFromHA(v)
  {
    BrightnessKept(pct);
    BrightnessKept(BrightnessFromHA(v));
  }

  lemma BrightnessKept(pct: Byte)
    ensures pct <= 100 ==> BrightnessFromHA(BrightnessToHA(pct)) == pct
  {
    if 0 < pct < 100 {
      var h := pct * 255 / 100;
      assert 100 * h <= pct * 255 < 100 * h + 100;
      assert 255 * pct <= h * 100 + 127 < 255 * pct + 255;
    }
  }
}
