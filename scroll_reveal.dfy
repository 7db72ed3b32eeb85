/**
 * `ScrollReveal` in js/animations.js: option defaults, the hidden style
 * given to every `[data-reveal]` element, and the one-shot reveal when an
 * element becomes visible. Styles are kept as the values they are built
 * from, not as CSS text.
 */
module Reveal {
  import opened JsValues

  type ElementId = nat

  const DefaultEasing: string := "cubic-bezier(0.4, 0, 0.2, 1)"

  /** The fall-back value of each option. */
  function Defaults(): map<string, JsValue> {
    map["duration" := Num(600.0), "delay" := Num(0.0), "distance" := Num(30.0),
        "easing" := Str(DefaultEasing)]
  }

  /** The constructor's `this.options`: four `option || default` entries,
      then a spread of `options` over them. Every key the caller supplied
      keeps the caller's value, falsy or not; only absent keys get a
      default; and nothing else is added. */
  function MergeOptions(options: map<string, JsValue>): (r: map<string, JsValue>)
    ensures r.Keys == options.Keys + Defaults().Keys
    ensures forall k :: k in options ==> r[k] == options[k]
    ensures forall k :: k in Defaults() && k !in options ==> r[k] == Defaults()[k]
  {
    map["duration" := Or(Get(options, "duration"), Num(600.0)),
        "delay" := Or(Get(options, "delay"), Num(0.0)),
        "distance" := Or(Get(options, "distance"), Num(30.0)),
        "easing" := Or(Get(options, "easing"), Str(DefaultEasing))]
    + options
  }

  /** Because the spread comes last, the `||` tests never decide anything:
      the merge is the defaults overridden by the supplied options. */
  lemma MergeIsDefaultsOverridden(options: map<string, JsValue>)
    ensures MergeOptions(options) == Defaults() + options
  {
  }

  /** `new ScrollReveal()` with no argument uses every default. */
  lemma NoOptionsGivesDefaults()
    ensures MergeOptions(map[]) == Defaults()
  {
    MergeIsDefaultsOverridden(map[]);
  }

  /** The style of a `[data-reveal]` element: hidden and shifted down by
      `distance` pixels, or revealed with a transition of the configured
      duration, easing and delay (opacity 1, no shift). */
  datatype RevealStyle =
    | Hidden(distance: JsValue)
    | Revealed(duration: JsValue, easing: JsValue, delay: JsValue)

  /** The style `init` gives an element before it is observed. */
  function HiddenStyle(options: map<string, JsValue>): RevealStyle {
    Hidden(Get(options, "distance"))
  }

  /** The style `reveal(element)` sets. */
  function RevealedStyle(options: map<string, JsValue>): RevealStyle {
    Revealed(Get(options, "duration"), Get(options, "easing"), Get(options, "delay"))
  }

  /** One `new ScrollReveal(options)`: its merged options, the style of each
      `[data-reveal]` element and the elements still observed. */
  class ScrollReveal {
    const options: map<string, JsValue>
    var styles: map<ElementId, RevealStyle>
    var observed: set<ElementId>

    /** An observed element is still hidden; an element that is no longer
        observed has been revealed. */
    ghost predicate Valid()
      reads this
    {
      && (forall e :: e in observed ==> e in styles && styles[e] == HiddenStyle(options))
      && (forall e :: e in styles && e !in observed ==> styles[e] == RevealedStyle(options))
    }

    /** The constructor and `init`: merge the options, hide every
        `[data-reveal]` element and observe it. */
    constructor (userOptions: map<string, JsValue>, elements: seq<ElementId>)
      ensures Valid()
      ensures options == MergeOptions(userOptions)
      ensures observed == (set e | e in elements) && styles.Keys == observed
    {
      var merged := MergeOptions(userOptions);
      options := merged;
      styles := map e | e in elements :: HiddenStyle(merged);
      observed := set e | e in elements;
    }

    /** The observer callback for one entry: an intersecting element is
        revealed and unobserved; any other entry changes nothing. */
    method OnEntry(target: ElementId, isIntersecting: bool)
      requires Valid()
      modifies this
      ensures Valid()
      ensures isIntersecting ==> styles == old(styles)[target := RevealedStyle(options)]
      ensures isIntersecting ==> observed == old(observed) - {target}
      ensures !isIntersecting ==> styles == old(styles) && observed == old(observed)
    {
      if isIntersecting {
        styles := styles[target := RevealedStyle(options)];
        observed := observed - {target};
      }
    }
  }
}
