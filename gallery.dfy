/** One frame of the horizontal gallery auto-scroll of js/main.js (`animateScroll`, lines 413-423). */
module Gallery {

  /** Line 401: the default speed, in pixels per frame (the one line 470 also passes). */
  const DefaultScrollSpeed: real := 0.5

  /** Lines 416-419: advance by the speed, and wrap to 0 once half the scroll width (the end of the
      original, un-duplicated content) is reached. Starting inside the loop range with a non-negative
      speed, the position stays inside it. */
  function NextScroll(currentScroll: real, scrollSpeed: real, scrollWidth: real): (next: real)
    ensures next == 0.0 || next == currentScroll + scrollSpeed
    ensures next < scrollWidth / 2.0 || next == 0.0
    ensures currentScroll + scrollSpeed < scrollWidth / 2.0 ==> next == currentScroll + scrollSpeed
    ensures 0.0 <= currentScroll < scrollWidth / 2.0 && scrollSpeed >= 0.0 ==> 0.0 <= next < scrollWidth / 2.0
  {
    var advanced := currentScroll + scrollSpeed;
    if advanced >= scrollWidth / 2.0 then 0.0 else advanced
  }

  /** The closure state of `initAutoScrollGallery` (lines 404-407) and the gallery's scroll offset. */
  class AutoScrollGallery {
    const scrollSpeed: real
    /** `galleryElement.scrollWidth`, after the content has been duplicated. */
    var scrollWidth: real
    var currentScroll: real
    var isPaused: bool
    var userInteracting: bool
    /** `galleryElement.scrollLeft`. */
    var scrollLeft: real

    /** The position is inside the loop range [0, scrollWidth / 2). */
    ghost predicate InLoop()
      reads this
    {
      0.0 <= currentScroll < scrollWidth / 2.0
    }

    /** Lines 404-407: nothing paused, position 0. */
    constructor (scrollWidth: real, scrollLeft: real, scrollSpeed: real := DefaultScrollSpeed)
      ensures this.scrollSpeed == scrollSpeed && this.scrollWidth == scrollWidth && this.scrollLeft == scrollLeft
      ensures currentScroll == 0.0 && !isPaused && !userInteracting
      ensures scrollWidth > 0.0 ==> InLoop()
    {
      this.scrollSpeed := scrollSpeed;
      this.scrollWidth := scrollWidth;
      this.scrollLeft := scrollLeft;
      currentScroll := 0.0;
      isPaused := false;
      userInteracting := false;
    }

    /** Lines 413-421 (the re-scheduling of line 422 is left to the caller): while paused or touched
        nothing moves; otherwise the position advances one step and is written to `scrollLeft`. */
    method AnimateScroll()
      modifies this`currentScroll, this`scrollLeft
      ensures old(isPaused) || old(userInteracting) ==>
        currentScroll == old(currentScroll) && scrollLeft == old(scrollLeft)
      ensures !old(isPaused) && !old(userInteracting) ==>
        currentScroll == NextScroll(old(currentScroll), scrollSpeed, scrollWidth) && scrollLeft == currentScroll
      ensures old(InLoop()) && scrollSpeed >= 0.0 ==> InLoop()
    {
      if !isPaused && !userInteracting {
        currentScroll := currentScroll + scrollSpeed;
        if currentScroll >= scrollWidth / 2.0 {
          currentScroll := 0.0;
        }
        scrollLeft := currentScroll;
      }
    }
  }
}
