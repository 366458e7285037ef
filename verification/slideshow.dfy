/** The hero slideshow: three images, one shown at a time, advanced by a
    timer tick. */
module Slideshow {
  import opened JsPrimitives

  const Slides: seq<string> := ["/slides/slide1.jpg", "/slides/slide2.jpg", "/slides/slide3.jpg"]

  /** The index the slideshow starts at. */
  const Start: int := 0

  /** The interval callback: `setIndex((i) => (i + 1) % images.length)`, with
      JavaScript's truncating remainder. */
  function Tick(i: int): (r: int)
    ensures i >= -1 ==> 0 <= r < |Slides|
    ensures 0 <= i < |Slides| - 1 ==> r == i + 1
    ensures i == |Slides| - 1 ==> r == 0
  {
    TruncRem(i + 1, |Slides|)
  }

  /** The index after `k` ticks from `i`. */
  function Ticks(i: int, k: nat): int
  {
    if k == 0 then i else Tick(Ticks(i, k - 1))
  }

  /** From the start, the index after `k` ticks is `k` modulo the number of
      slides; in particular it always names a slide. */
  lemma {:induction false} TicksFromStart(k: nat)
    ensures Ticks(Start, k) == k % |Slides|
    ensures 0 <= Ticks(Start, k) < |Slides|
  {
    if k > 0 {
      TicksFromStart(k - 1);
      var prev := (k - 1) % 3;
      assert k % 3 == if prev == 2 then 0 else prev + 1;
    }
  }

  /** Three ticks bring any slide back. */
  lemma ThreeTicksCycle(i: int)
    requires 0 <= i < |Slides|
    ensures Ticks(i, 3) == i
  {
    assert Ticks(i, 1) == Tick(i);
    assert Ticks(i, 2) == Tick(Tick(i));
  }

  /** The opacity of each slide: visible exactly at the current index. */
  function Visible(index: int): (flags: seq<bool>)
    ensures |flags| == |Slides|
    ensures forall k :: 0 <= k < |flags| ==> (flags[k] <==> k == index)
  {
    seq(|Slides|, k requires 0 <= k < |Slides| => k == index)
  }

  /** Exactly one slide is visible at any index the slideshow reaches: the
      one at that index. */
  lemma ExactlyOneVisible(k: nat)
    ensures var index := Ticks(Start, k);
      var flags := Visible(index);
      0 <= index < |flags| && flags[index]
      && forall j :: 0 <= j < |flags| && flags[j] ==> j == index
  {
    TicksFromStart(k);
  }
}
