/**
 * The testimonial carousel: an index into a fixed list of four testimonials, moved by the arrow
 * buttons, the dots and a five-second auto-advance, plus a video flag toggled by the play button.
 */
module Testimonials {
  import opened Wrappers

  /** The fields of a testimonial that the carousel's logic depends on or shows as text. */
  datatype Testimonial = Testimonial(id: nat, name: string, role: string, company: string, rating: nat, videoUrl: Option<string>)

  const Items: seq<Testimonial> := [
    Testimonial(1, "Sarah Chen", "VP of Operations", "TechFlow Inc", 5, Some("#")),
    Testimonial(2, "Michael Rodriguez", "CTO", "DataDrive Solutions", 5, None),
    Testimonial(3, "Emily Watson", "Head of Customer Success", "GrowthLab", 5, Some("#")),
    Testimonial(4, "David Park", "Founder & CEO", "InnovateCorp", 5, None)
  ]

  /** The auto-advance period, in milliseconds. */
  const AdvanceMs := 5000

  /** `(prev + 1) % length`: the following slide, wrapping from the last to the first. */
  function Next(i: nat): (j: nat)
    requires i < |Items|
    ensures j < |Items|
    ensures if i + 1 < |Items| then j == i + 1 else j == 0
  {
    (i + 1) % |Items|
  }

  /** `(prev - 1 + length) % length`: the preceding slide, wrapping from the first to the last. */
  function Previous(i: nat): (j: nat)
    requires i < |Items|
    ensures j < |Items|
    ensures if i > 0 then j == i - 1 else j == |Items| - 1
  {
    (i - 1 + |Items|) % |Items|
  }

  lemma PreviousUndoesNext(i: nat)
    requires i < |Items|
    ensures Previous(Next(i)) == i
  {
  }

  lemma NextUndoesPrevious(i: nat)
    requires i < |Items|
    ensures Next(Previous(i)) == i
  {
  }

  /** `k` auto-advances from slide `i`. */
  function Advance(i: nat, k: nat): (j: nat)
    requires i < |Items|
    ensures j < |Items|
    decreases k
  {
    if k == 0 then i else Advance(Next(i), k - 1)
  }

  /** Auto-advancing lands on slide `(i + k) % 4`, so every fourth tick shows the same testimonial again. */
  lemma {:induction false} AdvanceIsModular(i: nat, k: nat)
    requires i < |Items|
    ensures Advance(i, k) == (i + k) % |Items|
    decreases k
  {
    if k > 0 {
      AdvanceIsModular(Next(i), k - 1);
      assert (Next(i) + (k - 1)) % |Items| == (i + k) % |Items| by {
        if i + 1 < |Items| {
          assert Next(i) + (k - 1) == i + k;
        } else {
          assert Next(i) + (k - 1) == i + k - |Items|;
        }
      }
    }
  }

  class Carousel {
    var currentIndex: nat
    var isAutoPlaying: bool
    var isVideoPlaying: bool

    /** The index stays in range, so every lookup of the current testimonial is in bounds. */
    ghost predicate Valid()
      reads this
    {
      currentIndex < |Items|
    }

    constructor ()
      ensures Valid() && currentIndex == 0 && isAutoPlaying && !isVideoPlaying
    {
      currentIndex := 0;
      isAutoPlaying := true;
      isVideoPlaying := false;
    }

    function Current(): (t: Testimonial)
      requires Valid()
      reads this
      ensures t in Items
    {
      Items[currentIndex]
    }

    /** The interval is installed only while autoplaying with no video playing. */
    predicate Ticking()
      reads this
    {
      isAutoPlaying && !isVideoPlaying
    }

    /** The play button is rendered only for a testimonial with a video. */
    predicate PlayButtonShown()
      requires Valid()
      reads this
    {
      Current().videoUrl.Some?
    }

    method GoToNext()
      requires Valid()
      modifies this
      ensures Valid() && currentIndex == Next(old(currentIndex))
      ensures !isAutoPlaying && isVideoPlaying == old(isVideoPlaying)
    {
      currentIndex := (currentIndex + 1) % |Items|;
      isAutoPlaying := false;
    }

    method GoToPrevious()
      requires Valid()
      modifies this
      ensures Valid() && currentIndex == Previous(old(currentIndex))
      ensures !isAutoPlaying && isVideoPlaying == old(isVideoPlaying)
    {
      currentIndex := (currentIndex - 1 + |Items|) % |Items|;
      isAutoPlaying := false;
    }

    /** A dot click; the dots pass only the indices of the list. */
    method GoToSlide(index: nat)
      requires index < |Items|
      modifies this
      ensures Valid() && currentIndex == index
      ensures !isAutoPlaying && isVideoPlaying == old(isVideoPlaying)
    {
      currentIndex := index;
      isAutoPlaying := false;
    }

    /** One firing of the auto-advance interval: the index moves as for the next arrow, autoplay stays on. */
    method Tick()
      requires Valid() && Ticking()
      modifies this
      ensures Valid() && currentIndex == Next(old(currentIndex))
      ensures isAutoPlaying == old(isAutoPlaying) && isVideoPlaying == old(isVideoPlaying)
    {
      currentIndex := (currentIndex + 1) % |Items|;
    }

    /** The play button flips the video flag and nothing else. */
    method ToggleVideo()
      requires Valid() && PlayButtonShown()
      modifies this
      ensures Valid() && currentIndex == old(currentIndex) && isAutoPlaying == old(isAutoPlaying)
      ensures isVideoPlaying == !old(isVideoPlaying)
    {
      isVideoPlaying := !isVideoPlaying;
    }
  }

  /** The play button shows on the first and the third testimonial only. */
  lemma PlayButtonSlides(i: nat)
    requires i < |Items|
    ensures Items[i].videoUrl.Some? <==> i == 0 || i == 2
  {
  }
}
