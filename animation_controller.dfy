/**
 * The deterministic parts of `AnimationController` in js/animations.js:
 * the class change made when a scroll-animated element becomes visible,
 * the statistics counter that counts up to the number in an element's
 * text, and the `counted` guard that starts each counter at most once.
 * Intersection observers are replaced by explicit calls with the batch of
 * entries they would deliver, and the 16 ms interval by a `Tick` method.
 */
module AnimationController {
  import opened JsValues
  import opened JsStrings

  /** An element of the page, by identity. */
  type ElementId = nat

  // ---------------------------------------------------------------------
  // triggerAnimation
  // ---------------------------------------------------------------------

  /** The parts of an element that `triggerAnimation` reads or writes. */
  datatype AnimatedElement = AnimatedElement(
    classes: set<string>,
    dataAnimate: Option<string>,  // the data-animate attribute, if present
    opacity: string,
    transform: string)

  /** `element.dataset.animate || 'fadeInUp'`: a non-empty attribute is the
      animation name; a missing or empty one falls back to fadeInUp. */
  function AnimationType(dataAnimate: Option<string>): (t: string)
    ensures t != ""
    ensures dataAnimate == Some(t) || (t == "fadeInUp" && (dataAnimate == None || dataAnimate == Some("")))
  {
    if dataAnimate.Some? && dataAnimate.value != "" then dataAnimate.value else "fadeInUp"
  }

  /** ASCII white space as the DOM defines it (tab, line feed, form feed,
      carriage return, space): a class token may not contain any of it. */
  predicate IsAsciiWhitespace(c: char) {
    c == '\t' || c == '\n' || c == '\U{000C}' || c == '\r' || c == ' '
  }

  /** Whether `classList.add` accepts `t` as a token: it throws a
      SyntaxError for the empty string and an InvalidCharacterError for a
      token with ASCII white space in it. */
  function IsClassToken(t: string): (b: bool)
    ensures b <==> t != "" && forall k :: 0 <= k < |t| ==> !IsAsciiWhitespace(t[k])
  {
    t != "" && WhitespaceFree(t)
  }

  function WhitespaceFree(t: string): (b: bool)
    ensures b <==> forall k :: 0 <= k < |t| ==> !IsAsciiWhitespace(t[k])
  {
    t == [] || (!IsAsciiWhitespace(t[0]) && WhitespaceFree(t[1..]))
  }

  /** `triggerAnimation(element)`. When the animation name is a valid class
      token, the element gains the `animated` class and its animation class,
      keeps every class it had, and is made fully visible and untransformed.
      Otherwise `classList.add` throws before changing anything, and the
      result is None: the element stays as it was. */
  function TriggerAnimation(el: AnimatedElement): (r: Option<AnimatedElement>)
    ensures r.None? <==> !IsClassToken(AnimationType(el.dataAnimate))
    ensures r.Some? ==>
      && el.classes <= r.value.classes
      && r.value.classes - el.classes <= {"animated", AnimationType(el.dataAnimate)}
      && "animated" in r.value.classes && AnimationType(el.dataAnimate) in r.value.classes
      && r.value.dataAnimate == el.dataAnimate && r.value.opacity == "1" && r.value.transform == "none"
  {
    var name := AnimationType(el.dataAnimate);
    if !IsClassToken(name) then None
    else Some(el.(classes := el.classes + {"animated", name}, opacity := "1", transform := "none"))
  }

  /** Without a `data-animate` attribute the default `fadeInUp` is always
      accepted, so such an element is always animated. */
  lemma DefaultAnimationApplies(el: AnimatedElement)
    requires el.dataAnimate == None || el.dataAnimate == Some("")
    ensures TriggerAnimation(el).Some?
    ensures "fadeInUp" in TriggerAnimation(el).value.classes
  {
    assert AnimationType(el.dataAnimate) == "fadeInUp";
  }

  /** Firing again on an animated element changes nothing, so the one-shot
      unobserve after the first firing loses nothing. */
  lemma TriggerAnimationIdempotent(el: AnimatedElement)
    ensures TriggerAnimation(el).Some? ==>
      TriggerAnimation(TriggerAnimation(el).value) == TriggerAnimation(el)
  {
  }

  // ---------------------------------------------------------------------
  // animateCounter: arithmetic of the count-up
  // ---------------------------------------------------------------------

  const CounterDurationMs: int := 2000
  const CounterFrameMs: int := 16

  /** `target / (duration / 16)`, in exact arithmetic: 125 increments make
      up the target. */
  function Increment(target: int): (inc: real)
    ensures inc * 125.0 == target as real
  {
    (target as real) / ((CounterDurationMs as real) / (CounterFrameMs as real))
  }

  /** The closure variable `current` after `k` ticks: `current +=
      increment` on every tick, from 0. */
  function CurrentAfter(target: int, k: nat): real {
    if k == 0 then 0.0 else CurrentAfter(target, k - 1) + Increment(target)
  }

  /** After `k` ticks the counter holds `k` increments. */
  lemma {:induction false} CurrentClosedForm(target: int, k: nat)
    ensures CurrentAfter(target, k) == k as real * Increment(target)
  {
    if k > 0 {
      CurrentClosedForm(target, k - 1);
    }
  }

  /** The tick on which the counter reaches its target and stops. */
  function TicksToFinish(target: int): nat {
    if target <= 0 then 1 else 125
  }

  /** Until the tick `TicksToFinish(target)` the counter stays strictly below
      its target, and on that tick it reaches it: the first tick for a
      target of at most 0, the 125th for a positive one. */
  lemma {:induction false} StopsExactlyAtFinish(target: int, k: nat)
    requires 1 <= k <= TicksToFinish(target)
    ensures CurrentAfter(target, k) >= target as real <==> k == TicksToFinish(target)
  {
    var inc := Increment(target);
    CurrentClosedForm(target, k);
    assert CurrentAfter(target, k) - target as real == (k - 125) as real * inc;
    if target > 0 {
      assert inc > 0.0;
      if k < 125 {
        assert (k - 125) as real * inc < 0.0;
      }
    } else {
      assert k == 1;
      assert inc <= 0.0;
    }
  }

  /** For a positive target the displayed whole number never goes down. */
  lemma {:induction false} DisplayNeverDecreases(target: int, k: nat)
    requires target > 0
    ensures CurrentAfter(target, k).Floor <= CurrentAfter(target, k + 1).Floor
  {
    assert Increment(target) > 0.0;
  }

  /** The counter's suffix: `%` when the trimmed text contains `%`, `+`
      otherwise. Trimming cannot remove a `%`, so the untrimmed text decides. */
  function CounterSuffix(text: string): (c: char)
    ensures c == '%' <==> '%' in text
    ensures c != '%' ==> c == '+'
  {
    TrimKeepsNonWhitespace(text, '%');
    if '%' in Trim(text) then '%' else '+'
  }

  // ---------------------------------------------------------------------
  // animateCounter: the running timer
  // ---------------------------------------------------------------------

  /** What the counter element shows: its original text before the first
      tick, then a whole number followed by the suffix. */
  datatype Display = Text(s: string) | Count(value: int, suffix: char)

  /** One call of `animateCounter(element)`: the closure state `current`,
      the interval (running until cleared) and the element's textContent. */
  class StatCounter {
    const original: string
    const target: int
    const suffix: char
    const increment: real
    var current: real
    var running: bool
    var display: Display
    ghost var ticks: nat

    ghost predicate Valid()
      reads this
    {
      && increment == Increment(target)
      && current == CurrentAfter(target, ticks)
      && (running ==> ticks < TicksToFinish(target))
      && (!running ==> ticks == TicksToFinish(target) && display == Count(target, suffix))
      && (running && ticks == 0 ==> display == Text(original))
      && (running && ticks > 0 ==> current < target as real && display == Count(current.Floor, suffix))
    }

    /** Starts the counter on an element whose textContent is `text` and
        whose trimmed text `parseInt` reads as `target`. */
    constructor (text: string, target: int)
      ensures Valid()
      ensures original == text && this.target == target && suffix == CounterSuffix(text)
      ensures running && ticks == 0 && display == Text(text)
    {
      original := text;
      this.target := target;
      suffix := CounterSuffix(text);
      increment := Increment(target);
      current := 0.0;
      running := true;
      display := Text(text);
      ticks := 0;
    }

    /** One firing of the 16 ms interval. Once the interval is cleared,
        nothing fires and nothing changes. */
    method Tick()
      requires Valid()
      modifies this
      ensures Valid()
      ensures !old(running) ==> unchanged(this)
      ensures old(running) ==> ticks == old(ticks) + 1
      ensures old(running) && !running ==> display == Count(target, suffix)
      ensures running ==> display.Count? && display.value == current.Floor && display.value < target
      ensures target > 0 && old(running) && old(ticks) > 0 ==> old(display).value <= display.value
    {
      if running {
        ghost var k := ticks;
        current := current + increment;
        ticks := ticks + 1;
        StopsExactlyAtFinish(target, k + 1);
        if target > 0 {
          DisplayNeverDecreases(target, k);
        }
        if current >= target as real {
          display := Count(target, suffix);
          running := false;
        } else {
          display := Count(current.Floor, suffix);
        }
      }
    }
  }

  // ---------------------------------------------------------------------
  // setupCounterAnimation: the `counted` guard
  // ---------------------------------------------------------------------

  /** One IntersectionObserver entry. */
  datatype Entry = Entry(target: ElementId, isIntersecting: bool)

  predicate NoDuplicates(s: seq<ElementId>) {
    forall i, j :: 0 <= i < j < |s| ==> s[i] != s[j]
  }

  function Elements(s: seq<ElementId>): set<ElementId> {
    set x | x in s
  }

  /** The elements whose counter a batch of entries starts, in order, when
      the elements in `counted` already carry the `counted` class: each
      intersecting target that is not yet counted, once. */
  function CounterStarts(counted: set<ElementId>, entries: seq<Entry>): (r: seq<ElementId>)
    ensures NoDuplicates(r)
    ensures forall x :: x in r ==> x !in counted
  {
    if entries == [] then []
    else
      var earlier := CounterStarts(counted, entries[..|entries| - 1]);
      var e := entries[|entries| - 1];
      if e.isIntersecting && e.target !in counted && e.target !in earlier
      then earlier + [e.target]
      else earlier
  }

  /** Every element a batch starts comes from an intersecting entry, and
      every intersecting entry's target ends up counted. */
  lemma {:induction false} CounterStartsExact(counted: set<ElementId>, entries: seq<Entry>)
    ensures forall x :: x in CounterStarts(counted, entries) ==>
      exists k :: 0 <= k < |entries| && entries[k].isIntersecting && entries[k].target == x
    ensures forall k :: 0 <= k < |entries| && entries[k].isIntersecting ==>
      entries[k].target in counted || entries[k].target in CounterStarts(counted, entries)
  {
    if entries != [] {
      var n := |entries| - 1;
      var prefix := entries[..n];
      CounterStartsExact(counted, prefix);
      forall x | x in CounterStarts(counted, entries)
        ensures exists k :: 0 <= k < |entries| && entries[k].isIntersecting && entries[k].target == x
      {
        if x in CounterStarts(counted, prefix) {
          var k :| 0 <= k < |prefix| && prefix[k].isIntersecting && prefix[k].target == x;
          assert entries[k] == prefix[k];
        } else {
          assert entries[n].isIntersecting && entries[n].target == x;
        }
      }
      forall k | 0 <= k < |entries| && entries[k].isIntersecting
        ensures entries[k].target in counted || entries[k].target in CounterStarts(counted, entries)
      {
        if k < n {
          assert entries[k] == prefix[k];
        }
      }
    }
  }

  /** The observer of `setupCounterAnimation`: which stat elements are still
      observed, which carry the `counted` class, and the `animateCounter`
      calls made so far, in order. */
  class CounterObserver {
    var observed: set<ElementId>
    var counted: set<ElementId>
    var started: seq<ElementId>

    /** No counter is started twice, and a started element is counted and
        no longer observed. */
    ghost predicate Valid()
      reads this
    {
      NoDuplicates(started) && forall x :: x in started ==> x in counted && x !in observed
    }

    /** Observes every `.stat-number` element; `markedCounted` are those that
        already carry the `counted` class in the markup. */
    constructor (counters: seq<ElementId>, markedCounted: set<ElementId>)
      ensures Valid()
      ensures observed == Elements(counters) && counted == markedCounted && started == []
    {
      observed := Elements(counters);
      counted := markedCounted;
      started := [];
    }

    /** The observer callback on one batch of entries. */
    method OnEntries(entries: seq<Entry>)
      requires Valid()
      modifies this
      ensures Valid()
      ensures started == old(started) + CounterStarts(old(counted), entries)
      ensures counted == old(counted) + Elements(CounterStarts(old(counted), entries))
      ensures observed == old(observed) - Elements(CounterStarts(old(counted), entries))
    {
      var i := 0;
      while i < |entries|
        invariant 0 <= i <= |entries|
        invariant Valid()
        invariant started == old(started) + CounterStarts(old(counted), entries[..i])
        invariant counted == old(counted) + Elements(CounterStarts(old(counted), entries[..i]))
        invariant observed == old(observed) - Elements(CounterStarts(old(counted), entries[..i]))
      {
        var e := entries[i];
        assert entries[..i + 1][..i] == entries[..i];
        if e.isIntersecting && e.target !in counted {
          started := started + [e.target];
          counted := counted + {e.target};
          observed := observed - {e.target};
        }
        i := i + 1;
      }
      assert entries[..|entries|] == entries;
    }
  }
}
