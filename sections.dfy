/** The active-section resolver of js/main.js (lines 110-160): which section the scroll position makes current. */
module ActiveSection {
  import opened Wrappers

  /** A section's `getBoundingClientRect()`, relative to the viewport top. */
  datatype Rect = Rect(top: real, bottom: real, height: real)

  /** A `.main-content .section` element in document order; a missing `id` attribute is the empty string
      (both are falsy where the code tests the id). */
  datatype Section = Section(id: string, rect: Rect)

  /** A rectangle as the browser reports it: the bottom lies one (non-negative) height below the top. */
  predicate Consistent(r: Rect)
  {
    r.height >= 0.0 && r.bottom == r.top + r.height
  }

  function Max(a: real, b: real): real { if a >= b then a else b }

  function Min(a: real, b: real): real { if a <= b then a else b }

  /** Lines 121-125: the visible share of the section. The visible height is not clamped, so a section
      outside the viewport gets a ratio of at most 0; a section of zero height gets 0. */
  function VisibilityRatio(r: Rect, innerHeight: real): (ratio: real)
    ensures r.height <= 0.0 ==> ratio == 0.0
    ensures Consistent(r) && r.height > 0.0 ==> ratio <= 1.0
    ensures r.height > 0.0 && (r.bottom <= 0.0 || r.top >= innerHeight) ==> ratio <= 0.0
  {
    var visibleTop := Max(0.0, r.top);
    var visibleBottom := Min(innerHeight, r.bottom);
    var visibleHeight := visibleBottom - visibleTop;
    if r.height > 0.0 then
      RatioBounds(visibleHeight, r.height);
      visibleHeight / r.height
    else 0.0
  }

  /** A quotient by a positive height is at most 1 exactly when the dividend is at most the height,
      and has the sign of the dividend. */
  lemma RatioBounds(visible: real, height: real)
    requires height > 0.0
    ensures visible <= height ==> visible / height <= 1.0
    ensures visible <= 0.0 ==> visible / height <= 0.0
    ensures visible > 0.0 ==> visible / height > 0.0
  {
    var q := visible / height;
    assert q * height == visible;
    if q > 1.0 {
      assert q * height > height;
    }
  }

  /** Line 130: the section crosses the activation line. */
  predicate Straddles(r: Rect, activationOffset: real)
  {
    r.top <= activationOffset && r.bottom > activationOffset
  }

  /** Line 137: the section has not reached the activation line but starts inside the viewport. */
  predicate Approaching(r: Rect, innerHeight: real, activationOffset: real)
  {
    r.top > activationOffset && r.top < innerHeight
  }

  /** Lines 130 and 137: the section takes part in the best-match comparison. */
  predicate Eligible(s: Section, innerHeight: real, activationOffset: real)
  {
    Straddles(s.rect, activationOffset) ||
    (Approaching(s.rect, innerHeight, activationOffset) && VisibilityRatio(s.rect, innerHeight) > 0.5)
  }

  function RatioAt(sections: seq<Section>, i: nat, innerHeight: real): real
    requires i < |sections|
  {
    VisibilityRatio(sections[i].rect, innerHeight)
  }

  /** `bestMatchRatio` for a chosen index: 0 before anything is chosen (line 111). */
  function RatioOf(sections: seq<Section>, choice: Option<nat>, innerHeight: real): real
    requires choice.Some? ==> choice.value < |sections|
  {
    match choice
    case None => 0.0
    case Some(i) => RatioAt(sections, i, innerHeight)
  }

  /** The id recorded for a chosen index: the empty string before anything is chosen. */
  function IdOf(sections: seq<Section>, choice: Option<nat>): string
    requires choice.Some? ==> choice.value < |sections|
  {
    match choice
    case None => ""
    case Some(i) => sections[i].id
  }

  /** The section the best-match loop (lines 116-145) holds after visiting the first n sections:
      a later eligible section replaces the current one only with a strictly greater ratio. */
  function BestMatch(sections: seq<Section>, n: nat, innerHeight: real, activationOffset: real): (best: Option<nat>)
    requires n <= |sections|
    ensures best.Some? ==> best.value < n
  {
    if n == 0 then None
    else
      var b := BestMatch(sections, n - 1, innerHeight, activationOffset);
      if Eligible(sections[n - 1], innerHeight, activationOffset)
         && RatioAt(sections, n - 1, innerHeight) > RatioOf(sections, b, innerHeight)
      then Some(n - 1)
      else b
  }

  /** Independent statement of the best-match rule over the first n sections: `i` is eligible with a
      positive ratio, strictly greater than that of every earlier eligible section and at least that of
      every later one (ties keep document order). */
  ghost predicate IsBestMatch(sections: seq<Section>, n: nat, innerHeight: real, activationOffset: real, i: nat)
    requires n <= |sections|
  {
    i < n && Eligible(sections[i], innerHeight, activationOffset) && RatioAt(sections, i, innerHeight) > 0.0 &&
    (forall j :: 0 <= j < i && Eligible(sections[j], innerHeight, activationOffset) ==>
       RatioAt(sections, j, innerHeight) < RatioAt(sections, i, innerHeight)) &&
    (forall j :: i < j < n && Eligible(sections[j], innerHeight, activationOffset) ==>
       RatioAt(sections, j, innerHeight) <= RatioAt(sections, i, innerHeight))
  }

  /** No eligible section among the first n has a positive ratio (the comparison with the initial 0 is strict). */
  ghost predicate NoBestMatch(sections: seq<Section>, n: nat, innerHeight: real, activationOffset: real)
    requires n <= |sections|
  {
    forall j :: 0 <= j < n && Eligible(sections[j], innerHeight, activationOffset) ==>
      RatioAt(sections, j, innerHeight) <= 0.0
  }

  lemma {:induction false} BestMatchSound(sections: seq<Section>, n: nat, innerHeight: real, activationOffset: real)
    requires n <= |sections|
    ensures BestMatch(sections, n, innerHeight, activationOffset).None? ==> NoBestMatch(sections, n, innerHeight, activationOffset)
    ensures BestMatch(sections, n, innerHeight, activationOffset).Some? ==>
      IsBestMatch(sections, n, innerHeight, activationOffset, BestMatch(sections, n, innerHeight, activationOffset).value)
  {
    if n > 0 {
      BestMatchSound(sections, n - 1, innerHeight, activationOffset);
    }
  }

  /** At most one index satisfies the best-match rule, and none does when no eligible ratio is positive. */
  lemma BestMatchUnique(sections: seq<Section>, n: nat, innerHeight: real, activationOffset: real, i: nat, k: nat)
    requires n <= |sections|
    requires IsBestMatch(sections, n, innerHeight, activationOffset, i)
    ensures !NoBestMatch(sections, n, innerHeight, activationOffset)
    ensures IsBestMatch(sections, n, innerHeight, activationOffset, k) ==> i == k
  {
  }

  /** The loop's choice is exactly the one the best-match rule describes, in both directions. */
  lemma BestMatchCharacterized(sections: seq<Section>, n: nat, innerHeight: real, activationOffset: real)
    requires n <= |sections|
    ensures BestMatch(sections, n, innerHeight, activationOffset).None? <==> NoBestMatch(sections, n, innerHeight, activationOffset)
    ensures forall i: nat :: BestMatch(sections, n, innerHeight, activationOffset) == Some(i) <==>
      IsBestMatch(sections, n, innerHeight, activationOffset, i)
  {
    var b := BestMatch(sections, n, innerHeight, activationOffset);
    BestMatchSound(sections, n, innerHeight, activationOffset);
    forall i: nat | IsBestMatch(sections, n, innerHeight, activationOffset, i)
      ensures b == Some(i)
    {
      BestMatchUnique(sections, n, innerHeight, activationOffset, i, if b.Some? then b.value else i);
    }
    if b.Some? {
      BestMatchUnique(sections, n, innerHeight, activationOffset, b.value, b.value);
    }
  }

  /** The best-match loop reading the activation offset from a global `binding` (None when the name is
      declared nowhere). Each iteration first evaluates `rect.top <= activationOffset` (line 130), and
      reading an unbound name throws a ReferenceError: the result is then None. */
  function BestMatchBound(sections: seq<Section>, n: nat, innerHeight: real, binding: Option<real>): (r: Option<Option<nat>>)
    requires n <= |sections|
    ensures r.Some? && r.value.Some? ==> r.value.value < n
  {
    if n == 0 then Some(None)
    else
      match BestMatchBound(sections, n - 1, innerHeight, binding)
      case None => None
      case Some(b) =>
        match binding
        case None => None
        case Some(activationOffset) =>
          if Eligible(sections[n - 1], innerHeight, activationOffset)
             && RatioAt(sections, n - 1, innerHeight) > RatioOf(sections, b, innerHeight)
          then Some(Some(n - 1))
          else Some(b)
  }

  /** Over the first n sections the loop throws exactly when the offset is unbound and there is a
      section to visit; with a bound offset it completes with the best match. */
  lemma {:induction false} BestMatchBoundThrows(sections: seq<Section>, n: nat, innerHeight: real, binding: Option<real>)
    requires n <= |sections|
    ensures BestMatchBound(sections, n, innerHeight, binding).None? <==> binding.None? && n > 0
    ensures binding.Some? ==>
      BestMatchBound(sections, n, innerHeight, binding) == Some(BestMatch(sections, n, innerHeight, binding.value))
  {
    if n > 0 {
      BestMatchBoundThrows(sections, n - 1, innerHeight, binding);
    }
  }

  /** The section the fallback loop (lines 152-159) holds after visiting the first n sections: `closestTop`
      starts at Infinity, so the first partially visible section is taken, and a later one only with a
      strictly smaller top. */
  function Topmost(sections: seq<Section>, n: nat): (t: Option<nat>)
    requires n <= |sections|
    ensures t.Some? ==> t.value < n
  {
    if n == 0 then None
    else
      var t := Topmost(sections, n - 1);
      var r := sections[n - 1].rect;
      if (t.None? || r.top < sections[t.value].rect.top) && r.bottom > 0.0 then Some(n - 1) else t
  }

  /** Independent statement of the fallback rule over the first n sections: `i` is partially visible,
      strictly higher than every earlier visible section and no lower than every later one. */
  ghost predicate IsTopmost(sections: seq<Section>, n: nat, i: nat)
    requires n <= |sections|
  {
    i < n && sections[i].rect.bottom > 0.0 &&
    (forall j :: 0 <= j < i && sections[j].rect.bottom > 0.0 ==> sections[j].rect.top > sections[i].rect.top) &&
    (forall j :: i < j < n && sections[j].rect.bottom > 0.0 ==> sections[j].rect.top >= sections[i].rect.top)
  }

  ghost predicate NoneVisible(sections: seq<Section>, n: nat)
    requires n <= |sections|
  {
    forall j :: 0 <= j < n ==> sections[j].rect.bottom <= 0.0
  }

  lemma {:induction false} TopmostSound(sections: seq<Section>, n: nat)
    requires n <= |sections|
    ensures Topmost(sections, n).None? ==> NoneVisible(sections, n)
    ensures Topmost(sections, n).Some? ==> IsTopmost(sections, n, Topmost(sections, n).value)
  {
    if n > 0 {
      TopmostSound(sections, n - 1);
    }
  }

  /** The fallback loop's choice is exactly the one the fallback rule describes, in both directions. */
  lemma TopmostCharacterized(sections: seq<Section>, n: nat)
    requires n <= |sections|
    ensures Topmost(sections, n).None? <==> NoneVisible(sections, n)
    ensures forall i: nat :: Topmost(sections, n) == Some(i) <==> IsTopmost(sections, n, i)
  {
    TopmostSound(sections, n);
    var t := Topmost(sections, n);
    forall i: nat | IsTopmost(sections, n, i)
      ensures t == Some(i)
    {
      assert !NoneVisible(sections, n);
    }
  }

  /** Lines 147-160: the best match's id if it is non-empty, otherwise the fallback's id
      ("" when nothing qualifies). */
  function CurrentSectionId(sections: seq<Section>, innerHeight: real, activationOffset: real): string
  {
    var bestMatchId := IdOf(sections, BestMatch(sections, |sections|, innerHeight, activationOffset));
    if bestMatchId != "" then bestMatchId else IdOf(sections, Topmost(sections, |sections|))
  }

  /** The two rules combined: the fallback is consulted only when the best-match rule yields no id (no
      match, or a match whose section has no id), and with nothing eligible and nothing visible no section
      is current. */
  lemma CurrentSectionRules(sections: seq<Section>, innerHeight: real, activationOffset: real)
    ensures forall i: nat :: IsBestMatch(sections, |sections|, innerHeight, activationOffset, i) && sections[i].id != "" ==>
      CurrentSectionId(sections, innerHeight, activationOffset) == sections[i].id
    ensures forall i: nat :: NoBestMatch(sections, |sections|, innerHeight, activationOffset) && IsTopmost(sections, |sections|, i) ==>
      CurrentSectionId(sections, innerHeight, activationOffset) == sections[i].id
    ensures NoBestMatch(sections, |sections|, innerHeight, activationOffset) && NoneVisible(sections, |sections|) ==>
      CurrentSectionId(sections, innerHeight, activationOffset) == ""
    // a best match without an id is falsy at line 147, so the fallback decides
    ensures forall i: nat :: IsBestMatch(sections, |sections|, innerHeight, activationOffset, i) && sections[i].id == "" ==>
      CurrentSectionId(sections, innerHeight, activationOffset) == IdOf(sections, Topmost(sections, |sections|))
  {
    BestMatchCharacterized(sections, |sections|, innerHeight, activationOffset);
    TopmostCharacterized(sections, |sections|);
  }

  /** With the activation line inside the viewport, a section that crosses it is always partly visible. */
  lemma StraddlerIsVisible(r: Rect, innerHeight: real, activationOffset: real)
    requires Consistent(r) && Straddles(r, activationOffset)
    requires 0.0 <= activationOffset < innerHeight
    ensures VisibilityRatio(r, innerHeight) > 0.0
  {
    RatioBounds(Min(innerHeight, r.bottom) - Max(0.0, r.top), r.height);
  }

  /** A section that crosses the activation line, when no other section is eligible, is the best match. */
  lemma SoleStraddlerChosen(sections: seq<Section>, innerHeight: real, activationOffset: real, i: nat)
    requires i < |sections|
    requires 0.0 <= activationOffset < innerHeight
    requires Consistent(sections[i].rect) && Straddles(sections[i].rect, activationOffset)
    requires forall j :: 0 <= j < |sections| && j != i ==> !Eligible(sections[j], innerHeight, activationOffset)
    ensures BestMatch(sections, |sections|, innerHeight, activationOffset) == Some(i)
  {
    StraddlerIsVisible(sections[i].rect, innerHeight, activationOffset);
    BestMatchCharacterized(sections, |sections|, innerHeight, activationOffset);
    assert IsBestMatch(sections, |sections|, innerHeight, activationOffset, i);
  }

  /** Lines 110-160: the loops that pick the current section id. */
  method ResolveCurrentSection(sections: seq<Section>, innerHeight: real, activationOffset: real)
    returns (currentSectionId: string)
    ensures currentSectionId == CurrentSectionId(sections, innerHeight, activationOffset)
  {
    currentSectionId := "";
    var bestMatchRatio := 0.0;
    var bestMatchId := "";
    var i := 0;
    while i < |sections|
      invariant i <= |sections|
      invariant bestMatchRatio == RatioOf(sections, BestMatch(sections, i, innerHeight, activationOffset), innerHeight)
      invariant bestMatchId == IdOf(sections, BestMatch(sections, i, innerHeight, activationOffset))
    {
      var rect := sections[i].rect;
      var visibilityRatio := VisibilityRatio(rect, innerHeight);
      if rect.top <= activationOffset && rect.bottom > activationOffset {
        if visibilityRatio > bestMatchRatio {
          bestMatchRatio := visibilityRatio;
          bestMatchId := sections[i].id;
        }
      } else if rect.top > activationOffset && rect.top < innerHeight && visibilityRatio > 0.5 {
        if visibilityRatio > bestMatchRatio {
          bestMatchRatio := visibilityRatio;
          bestMatchId := sections[i].id;
        }
      }
      i := i + 1;
    }

    if bestMatchId != "" {
      currentSectionId := bestMatchId;
    } else {
      // `closestTop = Infinity` is the state "nothing found yet"
      var found := false;
      var closestTop := 0.0;
      i := 0;
      while i < |sections|
        invariant i <= |sections|
        invariant found <==> Topmost(sections, i).Some?
        invariant found ==> closestTop == sections[Topmost(sections, i).value].rect.top
        invariant currentSectionId == IdOf(sections, Topmost(sections, i))
      {
        var rect := sections[i].rect;
        if (!found || rect.top < closestTop) && rect.bottom > 0.0 {
          found := true;
          closestTop := rect.top;
          currentSectionId := sections[i].id;
        }
        i := i + 1;
      }
    }
  }
}
