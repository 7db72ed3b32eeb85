/**
 * `StaggerAnimation` in js/animations.js: the `[data-stagger]` children of
 * a container get an animation delay growing with their position, and the
 * `animated` class.
 */
module StaggerAnimation {
  import opened JsValues

  /** The parts of a `[data-stagger]` child that the helper writes; the
      delay is the number of milliseconds in `style.animationDelay`. */
  datatype Child = Child(classes: set<string>, animationDelayMs: Option<int>)

  /** What the loop body does to the child at position `index`. */
  function StaggerChild(child: Child, index: nat, delay: int): Child {
    child.(classes := child.classes + {"animated"}, animationDelayMs := Some(index * delay))
  }

  /** All children after one staggering pass. */
  function Staggered(children: seq<Child>, delay: int): (r: seq<Child>)
    ensures |r| == |children|
  {
    seq(|children|, i requires 0 <= i < |children| => StaggerChild(children[i], i, delay))
  }

  lemma {:induction false} ScaledOrder(i: nat, j: nat, delay: int)
    requires i <= j && delay >= 0
    ensures i * delay <= j * delay
  {
    assert j * delay - i * delay == (j - i) * delay;
  }

  /** After staggering, every child is `animated` and keeps its classes; the
      first child starts at once; with a non-negative step the delays never
      decrease along the children and are exactly `index * delay`. */
  lemma {:induction false} StaggeredDelays(children: seq<Child>, delay: int)
    ensures forall i :: 0 <= i < |children| ==>
      Staggered(children, delay)[i].classes == children[i].classes + {"animated"}
    ensures forall i :: 0 <= i < |children| ==>
      Staggered(children, delay)[i].animationDelayMs == Some(i * delay)
    ensures |children| > 0 ==> Staggered(children, delay)[0].animationDelayMs == Some(0)
    ensures delay >= 0 ==> forall i, j :: 0 <= i <= j < |children| ==>
      Staggered(children, delay)[i].animationDelayMs.value <= Staggered(children, delay)[j].animationDelayMs.value
  {
    var r := Staggered(children, delay);
    if delay >= 0 {
      forall i, j | 0 <= i <= j < |children|
        ensures r[i].animationDelayMs.value <= r[j].animationDelayMs.value
      {
        ScaledOrder(i, j, delay);
      }
    }
  }

  /** `animateChildren(parent, delay)` on the parent's `[data-stagger]`
      children, in document order; also the body of the `animateOnScroll`
      callback for an intersecting container. */
  method StaggerChildren(children: array<Child>, delay: int := 100)
    modifies children
    ensures children[..] == Staggered(old(children[..]), delay)
  {
    var index := 0;
    while index < children.Length
      invariant 0 <= index <= children.Length
      invariant forall i :: 0 <= i < index ==> children[i] == StaggerChild(old(children[i]), i, delay)
      invariant forall i :: index <= i < children.Length ==> children[i] == old(children[i])
    {
      children[index] := StaggerChild(children[index], index, delay);
      index := index + 1;
    }
  }

  /** The `animateOnScroll` observer callback for one container entry:
      an intersecting container has its children staggered and is
      unobserved; any other entry changes nothing. */
  method OnContainerEntry(isIntersecting: bool, children: array<Child>, delay: int := 100)
    returns (unobserve: bool)
    modifies children
    ensures unobserve == isIntersecting
    ensures isIntersecting ==> children[..] == Staggered(old(children[..]), delay)
    ensures !isIntersecting ==> children[..] == old(children[..])
  {
    unobserve := false;
    if isIntersecting {
      StaggerChildren(children, delay);
      unobserve := true;
    }
  }
}
