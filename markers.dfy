/**
 * The canvas marker style and the `m` command that cycles it
 * (src/main.rs:214-227).
 */
module Markers {

  /** The five marker styles the editor can hold. */
  datatype Marker = Dot | Block | Bar | Braille | HalfBlock

  /** The fixed order the `m` command walks through. */
  const MarkerCycle: seq<Marker> := [Dot, Block, Bar, Braille, HalfBlock]

  /** Index of a marker in MarkerCycle. */
  function MarkerIndex(m: Marker): (i: nat)
    ensures i < |MarkerCycle| && MarkerCycle[i] == m
  {
    match m
    case Dot => 0
    case Block => 1
    case Bar => 2
    case Braille => 3
    case HalfBlock => 4
  }

  /**
   * Skip every marker before the current one, take the one after it, and
   * fall back on the first marker when there is none.
   */
  function NextMarker(m: Marker): (n: Marker)
    ensures MarkerIndex(n) == (MarkerIndex(m) + 1) % |MarkerCycle|
  {
    var i := MarkerIndex(m);
    if i + 1 < |MarkerCycle| then MarkerCycle[i + 1] else MarkerCycle[0]
  }

  /** The marker reached after pressing `m` k times. */
  function Advance(m: Marker, k: nat): Marker
  {
    if k == 0 then m else NextMarker(Advance(m, k - 1))
  }

  /** The explicit order, wrapping from HalfBlock back to Dot. */
  lemma NextMarkerOrder()
    ensures NextMarker(Dot) == Block && NextMarker(Block) == Bar
    ensures NextMarker(Bar) == Braille && NextMarker(Braille) == HalfBlock
    ensures NextMarker(HalfBlock) == Dot
  {
  }

  /** Pressing `m` k times moves k places along the cycle. */
  lemma {:induction false} AdvanceIndex(m: Marker, k: nat)
    ensures MarkerIndex(Advance(m, k)) == (MarkerIndex(m) + k) % |MarkerCycle|
  {
    if k > 0 {
      AdvanceIndex(m, k - 1);
      ModFiveStep(MarkerIndex(m) + k - 1);
    }
  }

  /** Taking one more step commutes with reducing modulo five. */
  lemma ModFiveStep(x: nat)
    ensures (x % 5 + 1) % 5 == (x + 1) % 5
  {
    var q := x / 5;
    assert x == 5 * q + x % 5;
    if x % 5 == 4 {
      assert x + 1 == 5 * (q + 1);
    } else {
      assert x + 1 == 5 * q + (x % 5 + 1);
    }
  }

  /** Moving k places from position i < 5 lands on i exactly when k is a multiple of five. */
  lemma ModFiveShift(i: nat, k: nat)
    requires i < 5
    ensures (i + k) % 5 == i <==> k % 5 == 0
  {
    var q, r := k / 5, k % 5;
    assert k == 5 * q + r;
    if i + r < 5 {
      assert i + k == 5 * q + (i + r);
    } else {
      assert i + k == 5 * (q + 1) + (i + r - 5);
    }
  }

  /** MarkerIndex tells markers apart. */
  lemma MarkerIndexInjective(a: Marker, b: Marker)
    requires MarkerIndex(a) == MarkerIndex(b)
    ensures a == b
  {
  }

  /**
   * Every style is visited: pressing `m` five times returns to the start,
   * and no fewer presses do.
   */
  lemma AdvanceWrapsAfterFive(m: Marker, k: nat)
    requires 0 < k
    ensures Advance(m, k) == m <==> k % |MarkerCycle| == 0
  {
    AdvanceIndex(m, k);
    ModFiveShift(MarkerIndex(m), k);
    if k % |MarkerCycle| == 0 {
      MarkerIndexInjective(Advance(m, k), m);
    }
  }
}
