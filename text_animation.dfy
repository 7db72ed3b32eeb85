/**
 * `TextAnimation` in js/animations.js: the typewriter, which writes a text
 * one character per timeout, and the word fade, which rebuilds an
 * element's text as one delayed span per word.
 */
module TextAnimation {
  import opened JsStrings

  function Min(a: nat, b: nat): nat {
    if a <= b then a else b
  }

  // ---------------------------------------------------------------------
  // typeWriter
  // ---------------------------------------------------------------------

  /** One call of `typeWriter(element, text, speed)`: the element's
      textContent, the closure's `index`, and whether another run of the
      inner `type` is still to come (the direct first call, then each
      `setTimeout(type, speed)`). `calls` counts the runs of `type`. */
  class TypeWriter {
    const text: string
    var content: string
    var index: nat
    var scheduled: bool
    ghost var calls: nat

    /** After k runs of `type`, the element shows the first k characters of
        the text (all of it once k reaches its length), and another run is
        pending exactly while k has not passed the length. */
    ghost predicate Valid()
      reads this
    {
      && index == Min(calls, |text|)
      && content == text[..index]
      && (scheduled <==> calls <= |text|)
    }

    /** Clears the element and runs `type` once, as `typeWriter` does. */
    constructor (text: string)
      ensures Valid() && this.text == text && calls == 1
      ensures content == text[..Min(1, |text|)]
    {
      this.text := text;
      content := "";
      index := 0;
      scheduled := true;
      calls := 0;
      new;
      Type();
    }

    /** One run of the inner `type` closure (directly or from its timeout). */
    method Type()
      requires Valid()
      modifies this
      ensures Valid() && calls == old(calls) + 1
      ensures old(index) < |text| ==>
        content == old(content) + [text[old(index)]] && index == old(index) + 1 && scheduled
      ensures old(index) >= |text| ==> content == old(content) && index == old(index) && !scheduled
    {
      if index < |text| {
        content := content + [text[index]];
        index := index + 1;
        scheduled := true;
      } else {
        scheduled := false;
      }
      calls := calls + 1;
    }
  }

  /** A typewriter that has stopped shows the whole text. */
  lemma {:induction false} StoppedTypeWriterShowsText(t: TypeWriter)
    requires t.Valid() && !t.scheduled
    ensures t.content == t.text
  {
    assert t.index == |t.text|;
  }

  // ---------------------------------------------------------------------
  // fadeInWords
  // ---------------------------------------------------------------------

  /** A span appended by `fadeInWords`: its text and its fade-in animation
      (duration and delay in milliseconds); every span starts at opacity 0. */
  datatype Span = Span(text: string, durationMs: int, delayMs: int)

  /** The element's textContent once its children are these spans. */
  function TextContent(spans: seq<Span>): string {
    if spans == [] then [] else TextContent(spans[..|spans| - 1]) + spans[|spans| - 1].text
  }

  /** Spans holding `words[k] + ' '` read back as the words joined by
      spaces, followed by one more space. */
  lemma {:induction false} SpansReadBack(words: seq<string>, spans: seq<Span>)
    requires |words| >= 1 && |spans| == |words|
    requires forall k :: 0 <= k < |spans| ==> spans[k].text == words[k] + " "
    ensures TextContent(spans) == Join(words, ' ') + " "
  {
    if |words| > 1 {
      var n := |words| - 1;
      SpansReadBack(words[..n], spans[..n]);
      JoinLast(words);
    }
  }

  /** Joining peels off the last piece. */
  lemma {:induction false} JoinLast(parts: seq<string>)
    requires |parts| > 1
    ensures Join(parts, ' ') == Join(parts[..|parts| - 1], ' ') + " " + parts[|parts| - 1]
  {
    if |parts| > 2 {
      JoinLast(parts[1..]);
      assert parts[1..][..|parts| - 2] == parts[..|parts| - 1][1..];
    }
  }

  /** `fadeInWords(element, speed)`: splits the text on single spaces and
      returns the spans that replace it; span k holds the k-th piece plus a
      space and starts after `k * speed` ms, and together the spans read as
      the original text with one trailing space. */
  method FadeInWords(text: string, speed: int := 100) returns (spans: seq<Span>)
    ensures |spans| == |Split(text, ' ')|
    ensures forall k :: 0 <= k < |spans| ==>
      spans[k] == Span(Split(text, ' ')[k] + " ", speed, k * speed)
    ensures TextContent(spans) == text + " "
  {
    var words := Split(text, ' ');
    spans := [];
    var index := 0;
    while index < |words|
      invariant 0 <= index <= |words|
      invariant |spans| == index
      invariant forall k :: 0 <= k < index ==> spans[k] == Span(words[k] + " ", speed, k * speed)
    {
      spans := spans + [Span(words[index] + " ", speed, index * speed)];
      index := index + 1;
    }
    SpansReadBack(words, spans);
    JoinSplit(text, ' ');
  }
}
