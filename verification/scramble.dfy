/**
 * The heading text scramble (`scramble` and its per-frame callback): each
 * animation frame resolves a left-to-right prefix of the final text, shows
 * a short window of random capital letters after it, leaves the rest as the
 * final text, and never touches spaces or newlines. The last frame sets the
 * element's text to exactly the final text.
 *
 * Elapsed time is an input in whole milliseconds, and `Math.random` is an
 * input too: a glyph index in `[0, 26)` for every position.
 */
module Scramble {

  /** The glyph alphabet random characters are drawn from (`chars`). */
  const Glyphs: string := "ABCDEFGHIJKLMNOPQRSTUVWXYZ"

  /** How many positions after the resolved prefix show random glyphs. */
  const Window: nat := 3

  /** Characters that every frame copies through unchanged. */
  predicate PassThrough(c: char)
  {
    c == '\n' || c == ' '
  }

  /** One random glyph index per position of the text, each a valid index into `Glyphs`. */
  predicate GlyphsFor(glyphs: seq<nat>, finalText: string)
  {
    |glyphs| == |finalText| && forall i :: 0 <= i < |glyphs| ==> glyphs[i] < |Glyphs|
  }

  /**
   * `Math.floor(Math.min(elapsed / duration, 1) * length)`, in exact
   * arithmetic: the number of positions resolved after `elapsed` ms.
   * Nothing is resolved at the first frame; everything is resolved exactly
   * once the duration has passed.
   */
  function Resolved(elapsed: nat, duration: nat, length: nat): (r: nat)
    requires duration > 0
    ensures r <= length
    ensures r == length <==> elapsed >= duration || length == 0
    ensures elapsed == 0 ==> r == 0
  {
    if elapsed >= duration then length
    else
      assert elapsed * length < duration * length || length == 0 by {
        if length > 0 { MulStrict(elapsed, duration, length); }
      }
      DivBelow(elapsed * length, duration, length);
      elapsed * length / duration
  }

  /** `a < b` and `c > 0` give `a * c < b * c`. */
  lemma MulStrict(a: nat, b: nat, c: nat)
    requires a < b && c > 0
    ensures a * c < b * c
  {
    assert b * c == a * c + (b - a) * c;
  }

  /** A positive factor can be cancelled from a strict inequality. */
  lemma MulCancel(a: int, b: int, d: int)
    requires d > 0 && d * a < d * b
    ensures a < b
  {
    assert d * b - d * a == d * (b - a);
  }

  /** `x < d * n` gives `x / d < n`. */
  lemma DivBelow(x: nat, d: nat, n: nat)
    requires d > 0 && (x < d * n || n == 0)
    ensures n == 0 || x / d < n
  {
    if n > 0 {
      assert d * (x / d) <= x;
      MulCancel(x / d, n, d);
    }
  }

  /** Later frames never resolve fewer positions. */
  lemma ResolvedMonotonic(e1: nat, e2: nat, duration: nat, length: nat)
    requires duration > 0 && e1 <= e2
    ensures Resolved(e1, duration, length) <= Resolved(e2, duration, length)
  {
    if e2 < duration {
      var x1, x2 := e1 * length, e2 * length;
      assert x1 <= x2 by { assert x2 - x1 == (e2 - e1) * length; }
      DivMono(x1, x2, duration);
    }
  }

  /** Division by a positive natural is monotonic. */
  lemma DivMono(x: nat, y: nat, d: nat)
    requires d > 0 && x <= y
    ensures x / d <= y / d
  {
    assert d * (x / d) <= x;
    assert y < d * (y / d) + d;
    assert d * (y / d) + d == d * (y / d + 1);
    MulCancel(x / d, y / d + 1, d);
  }

  /** The character a frame shows at position `i`: one iteration of the frame's loop. */
  function FrameChar(finalText: string, resolved: nat, glyphs: seq<nat>, i: nat): char
    requires GlyphsFor(glyphs, finalText) && i < |finalText|
  {
    if PassThrough(finalText[i]) then finalText[i]
    else if i < resolved then finalText[i]
    else if i < resolved + Window then Glyphs[glyphs[i]]
    else finalText[i]
  }

  /**
   * The text a frame builds with `resolved` positions resolved: as long as
   * the final text, equal to it outside the glitch window and at every space
   * or newline, and a capital letter at every other position of the window.
   */
  function Scrambled(finalText: string, resolved: nat, glyphs: seq<nat>): (out: string)
    requires GlyphsFor(glyphs, finalText)
    ensures |out| == |finalText|
    ensures forall i :: 0 <= i < |out| && PassThrough(finalText[i]) ==> out[i] == finalText[i]
    ensures forall i :: 0 <= i < |out| && (i < resolved || resolved + Window <= i) ==> out[i] == finalText[i]
    ensures forall i ::
              0 <= i < |out| && resolved <= i < resolved + Window && !PassThrough(finalText[i]) ==>
                'A' <= out[i] <= 'Z'
  {
    seq(|finalText|, i requires 0 <= i < |finalText| => FrameChar(finalText, resolved, glyphs, i))
  }

  /** With every position resolved, a frame shows exactly the final text. */
  lemma FullyResolvedIsFinal(finalText: string, resolved: nat, glyphs: seq<nat>)
    requires GlyphsFor(glyphs, finalText) && resolved >= |finalText|
    ensures Scrambled(finalText, resolved, glyphs) == finalText
  {
  }

  /** Only positions in the glitch window that are not whitespace can differ from the final text. */
  lemma OnlyWindowDiffers(finalText: string, resolved: nat, glyphs: seq<nat>, i: nat)
    requires GlyphsFor(glyphs, finalText) && i < |finalText|
    requires Scrambled(finalText, resolved, glyphs)[i] != finalText[i]
    ensures resolved <= i < resolved + Window && !PassThrough(finalText[i])
  {
  }

  /** The frame's loop: builds the scrambled text one character at a time. */
  method BuildFrame(finalText: string, resolved: nat, glyphs: seq<nat>) returns (out: string)
    requires GlyphsFor(glyphs, finalText)
    ensures out == Scrambled(finalText, resolved, glyphs)
  {
    out := "";
    for i := 0 to |finalText|
      invariant |out| == i
      invariant forall k :: 0 <= k < i ==> out[k] == FrameChar(finalText, resolved, glyphs, k)
    {
      if finalText[i] == '\n' || finalText[i] == ' ' {
        out := out + [finalText[i]];
      } else if i < resolved {
        out := out + [finalText[i]];
      } else if i < resolved + Window {
        out := out + [Glyphs[glyphs[i]]];
      } else {
        out := out + [finalText[i]];
      }
    }
  }

  /**
   * One animation frame `elapsed` ms after the first: the element's text
   * afterwards, and whether another frame is requested. Frames continue
   * exactly while the duration has not passed, and the last one leaves the
   * final text, which is also what the scrambled text is by then.
   */
  method Frame(finalText: string, elapsed: nat, duration: nat, glyphs: seq<nat>)
      returns (text: string, again: bool)
    requires duration > 0 && GlyphsFor(glyphs, finalText)
    ensures again <==> elapsed < duration
    ensures text == Scrambled(finalText, Resolved(elapsed, duration, |finalText|), glyphs)
    ensures !again ==> text == finalText
  {
    var resolved := Resolved(elapsed, duration, |finalText|);
    text := BuildFrame(finalText, resolved, glyphs);
    again := elapsed < duration;
    if !again {
      FullyResolvedIsFinal(finalText, resolved, glyphs);
      text := finalText;
    }
  }
}
