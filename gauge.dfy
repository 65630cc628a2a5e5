/**
 * The ten-segment usage gauge: `"█" * int(pct / 10) + "░" * (10 - int(pct / 10))`
 * followed by a space, the percentage to one decimal and `%`.
 *
 * A percentage is held exactly in tenths of a percent (55.0 % is 550), the
 * precision the per-core CPU readings come with. For such a value
 * `int(pct / 10)` is `tenths / 100`. The bar is NOT clamped: Python repeats a
 * character a non-positive number of times as the empty string, so a reading
 * of 110 % or more gives more than ten filled glyphs and no empty ones.
 */
module Gauge {

  import opened Wrappers
  import opened Text

  const Full: char := '\U{2588}'
  const Empty: char := '\U{2591}'

  /** The number of segments the bar has for a reading between 0 % and 100 %. */
  const Segments: nat := 10

  /** A percentage in tenths of a percent. */
  type Tenths = nat

  /** `int(pct / 10)`: one filled segment per whole ten percent. */
  function Filled(pct: Tenths): (n: nat)
    ensures n * 100 <= pct < (n + 1) * 100
  {
    pct / 100
  }

  /**
   * The bar. Its first Filled(pct) glyphs are full and the rest empty; it is ten
   * glyphs long while Filled(pct) <= 10 and Filled(pct) glyphs long beyond that.
   */
  function Bar(pct: Tenths): (bar: string)
    ensures |bar| == if Filled(pct) <= Segments then Segments else Filled(pct)
    ensures forall k :: 0 <= k < |bar| ==> bar[k] == if k < Filled(pct) then Full else Empty
    ensures pct <= 1000 ==> |bar| == Segments
    ensures pct >= 1100 ==> Empty !in bar && |bar| == Filled(pct) > Segments
  {
    Repeat(Full, Filled(pct)) + Repeat(Empty, Segments - Filled(pct))
  }

  /** The gauge text: the bar, a space, the percentage to one decimal, and `%`. */
  function Render(pct: Tenths): string {
    Bar(pct) + " " + OneDecimal(pct) + "%"
  }

  /** A higher reading never fills fewer segments: every full glyph stays full. */
  lemma BarMonotone(lo: Tenths, hi: Tenths)
    requires lo <= hi
    ensures Filled(lo) <= Filled(hi)
    ensures forall k :: 0 <= k < |Bar(lo)| && Bar(lo)[k] == Full ==> k < |Bar(hi)| && Bar(hi)[k] == Full
  {
  }

  /** The number of full glyphs at the start of `s`. */
  function LeadingFull(s: string): (n: nat)
    ensures n <= |s|
    ensures forall k :: 0 <= k < n ==> s[k] == Full
    ensures n < |s| ==> s[n] != Full
  {
    if s != [] && s[0] == Full then 1 + LeadingFull(s[1..]) else 0
  }

  lemma {:induction false} LeadingFullOfRepeat(n: nat, rest: string)
    requires rest == [] || rest[0] != Full
    ensures LeadingFull(Repeat(Full, n) + rest) == n
  {
    if n > 0 {
      assert (Repeat(Full, n) + rest)[1..] == Repeat(Full, n - 1) + rest;
      LeadingFullOfRepeat(n - 1, rest);
    } else {
      assert Repeat(Full, n) + rest == rest;
    }
  }

  /** Counting the full glyphs a rendered gauge starts with gives back int(pct / 10). */
  lemma RenderShowsFilled(pct: Tenths)
    ensures LeadingFull(Render(pct)) == Filled(pct)
  {
    var rest := Repeat(Empty, Segments - Filled(pct)) + " " + OneDecimal(pct) + "%";
    assert Render(pct) == Repeat(Full, Filled(pct)) + rest;
    LeadingFullOfRepeat(Filled(pct), rest);
  }

  /** Reads a gauge text back: the percentage label between the first space and the final `%`. */
  function ParseRender(s: string): Option<Tenths> {
    var bar := TakeUntil(s, ' ');
    if |bar| < |s| && s[|s| - 1] == '%' && |bar| + 1 <= |s| - 1
    then ParseOneDecimal(s[|bar| + 1..|s| - 1])
    else None
  }

  /** The gauge text determines the reading it was drawn for. */
  lemma RenderRoundTrip(pct: Tenths)
    ensures ParseRender(Render(pct)) == Some(pct)
    ensures TakeUntil(Render(pct), ' ') == Bar(pct)
  {
    var text := OneDecimal(pct);
    assert Render(pct) == Bar(pct) + [' '] + (text + "%");
    TakeUntilField(Bar(pct), ' ', text + "%");
    var s := Render(pct);
    assert s[|Bar(pct)| + 1..|s| - 1] == text;
    OneDecimalRoundTrip(pct);
  }

  /** Distinct readings draw distinct gauges. */
  lemma RenderInjective(a: Tenths, b: Tenths)
    requires Render(a) == Render(b)
    ensures a == b
  {
    RenderRoundTrip(a);
    RenderRoundTrip(b);
  }

  /** 0 % is ten empty segments, 100 % ten full ones, and 55.0 % five full ones labelled `55.0%`. */
  lemma GaugeExamples()
    ensures Bar(0) == Repeat(Empty, 10) && Bar(1000) == Repeat(Full, 10)
    ensures Filled(550) == 5 && Render(550) == Bar(550) + " 55.0%"
    ensures |Bar(1234)| == 12 && Empty !in Bar(1234)
  {
    assert NatToString(55) == NatToString(5) + ['5'];
    assert OneDecimal(550) == "55.0";
  }
}
