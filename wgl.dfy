// The three selection helpers of src/platform/windows/wgl.cpp: the
// extension-string search, the pixel-format attribute lookup and the choice
// of the framebuffer configuration closest to the desired one.  C strings
// are sequences of characters without their terminating NUL; the end of the
// sequence plays the NUL.

module Wgl {

  datatype Option<T> = None | Some(value: T)

  /** `needle` occurs in `text` starting at `i`. */
  predicate Occurs(needle: string, text: string, i: int)
  {
    0 <= i && i + |needle| <= |text| && text[i..i + |needle|] == needle
  }

  /** An occurrence that is a whole space-delimited token. */
  predicate Bounded(needle: string, text: string, i: int)
  {
    && Occurs(needle, text, i)
    && (i == 0 || text[i - 1] == ' ')
    && (i + |needle| == |text| || text[i + |needle|] == ' ')
  }

  /** `needle` is one of the space-separated names of `text`. */
  predicate IsToken(needle: string, text: string)
  {
    exists i :: 0 <= i <= |text| && Bounded(needle, text, i)
  }

  predicate NoSpace(s: string)
  {
    forall k :: 0 <= k < |s| ==> s[k] != ' '
  }

  /** `std::strstr(text + start, needle)`: the first occurrence at or after `start`; an empty needle is found at `start`. */
  function Find(needle: string, text: string, start: nat): (r: Option<nat>)
    requires start <= |text|
    ensures r.Some? ==> start <= r.value && Occurs(needle, text, r.value)
    ensures r.Some? ==> forall j :: start <= j < r.value ==> !Occurs(needle, text, j)
    ensures r.None? ==> forall j :: start <= j ==> !Occurs(needle, text, j)
    ensures needle == [] ==> r == Some(start)
    decreases |text| - start
  {
    if start + |needle| > |text| then None
    else if text[start..start + |needle|] == needle then Some(start)
    else Find(needle, text, start + 1)
  }

  /**
   * The loop of `IsStringInExtensionString` as written, from search position
   * `start`: an occurrence counts when it begins at `start` or after a space,
   * and ends at the end or before a space; otherwise the search resumes after
   * it.
   */
  function SearchAsWritten(needle: string, text: string, start: nat): bool
    requires needle != [] && start <= |text|
    decreases |text| - start
  {
    match Find(needle, text, start)
    case None => false
    case Some(w) =>
      var t := w + |needle|;
      if (w == start || text[w - 1] == ' ') && (t == |text| || text[t] == ' ') then true
      else SearchAsWritten(needle, text, t)
  }

  /** `IsStringInExtensionString` as written. */
  method IsStringInExtensionStringAsWritten(needle: string, text: string) returns (found: bool)
    requires needle != []
    ensures found == SearchAsWritten(needle, text, 0)
  {
    var start := 0;
    while true
      invariant start <= |text|
      invariant SearchAsWritten(needle, text, start) == SearchAsWritten(needle, text, 0)
      decreases |text| - start
    {
      var done, next;
      done, found, next := SearchRound(needle, text, start);
      if done {
        return;
      }
      start := next;
    }
  }

  /**
   * One round of the loop as written from `start`: it stops when `strstr`
   * finds nothing or the occurrence is accepted, and otherwise resumes the
   * search at the end of the occurrence.
   */
  method SearchRound(needle: string, text: string, start: nat) returns (done: bool, found: bool, next: nat)
    requires needle != [] && start <= |text|
    ensures done ==> found == SearchAsWritten(needle, text, start)
    ensures !done ==> start < next <= |text| && SearchAsWritten(needle, text, next) == SearchAsWritten(needle, text, start)
  {
    var where := Find(needle, text, start);
    if where.None? {
      return true, false, start;
    }
    var terminator := where.value + |needle|;
    if where.value == start || text[where.value - 1] == ' ' {
      if terminator == |text| || text[terminator] == ' ' {
        return true, true, start;
      }
    }
    return false, false, terminator;
  }

  /**
   * After the search has moved past a first occurrence, the test
   * `where == start` accepts an occurrence glued to the end of the previous
   * one: "ab" is reported inside the single name "abab".
   */
  lemma GluedOccurrenceAccepted()
    ensures SearchAsWritten("ab", "abab", 0)
    ensures !IsToken("ab", "abab")
  {
    assert Find("ab", "abab", 0) == Some(0);
    assert Find("ab", "abab", 2) == Some(2);
    forall i | 0 <= i <= 4
      ensures !Bounded("ab", "abab", i)
    {
      if i == 0 {
        assert "abab"[2] == 'a';
      } else if i == 2 {
        assert "abab"[1] == 'b';
      } else if i == 1 {
        assert "abab"[1..3][0] == 'b';
      }
    }
  }

  /**
   * With an empty needle the loop as written never moves: `strstr` finds the
   * empty string at the search position itself, the occurrence is rejected
   * unless a space or the end follows, and the search resumes where it was.
   */
  lemma EmptyNeedleStalls(needle: string, text: string, start: nat)
    requires needle == [] && start < |text| && text[start] != ' '
    ensures Find(needle, text, start) == Some(start)
    ensures var t := Find(needle, text, start).value + |needle|; t == start && !(t == |text| || text[t] == ' ')
  {
  }

  /**
   * `IsStringInExtensionString` with the left boundary tested against the
   * beginning of the whole string, and an empty needle, which names no
   * extension, rejected at once: it answers whether the needle is one of the
   * names, for every needle that holds no space.
   */
  method IsStringInExtensionString(needle: string, text: string) returns (found: bool)
    ensures found ==> IsToken(needle, text)
    ensures needle != [] && NoSpace(needle) && IsToken(needle, text) ==> found
    ensures needle == [] ==> !found
  {
    if needle == [] {
      return false;
    }
    var start := 0;
    while true
      invariant start <= |text|
      invariant NoSpace(needle) ==> forall i :: 0 <= i < start ==> !Bounded(needle, text, i)
      decreases |text| - start
    {
      var where := Find(needle, text, start);
      if where.None? {
        return false;
      }
      var w := where.value;
      var terminator := w + |needle|;
      if w == 0 || text[w - 1] == ' ' {
        if terminator == |text| || text[terminator] == ' ' {
          assert Bounded(needle, text, w);
          return true;
        }
      }
      if NoSpace(needle) {
        forall i | w < i < terminator
          ensures !Bounded(needle, text, i)
        {
          if Occurs(needle, text, i) {
            assert text[i - 1] == text[w..w + |needle|][i - 1 - w];
          }
        }
      }
      start := terminator;
    }
  }

  /** `FindPixelFormatAttribValue`: the value paired with the first matching attribute, or 0 when none matches. */
  method FindPixelFormatAttribValue(attribs: array<int>, count: int, values: array<int>, attrib: int) returns (value: int)
    requires count <= attribs.Length && count <= values.Length
    ensures (forall i :: 0 <= i < count ==> attribs[i] != attrib) ==> value == 0
    ensures forall i :: 0 <= i < count && attribs[i] == attrib && (forall j :: 0 <= j < i ==> attribs[j] != attrib) ==>
      value == values[i]
  {
    var i := 0;
    while i < count
      invariant 0 <= i <= if count < 0 then 0 else count
      invariant forall j :: 0 <= j < i ==> attribs[j] != attrib
    {
      if attribs[i] == attrib {
        return values[i];
      }
      i := i + 1;
    }
    return 0;
  }

  /** `OpenGLFramebufferConfiguration`, the fields the choice reads. Bit counts of `DontCare` mean any. */
  datatype Config = Config(
    redBits: int, greenBits: int, blueBits: int, alphaBits: int,
    depthBits: int, stencilBits: int,
    accumRedBits: int, accumGreenBits: int, accumBlueBits: int, accumAlphaBits: int,
    auxBuffers: int, samples: int,
    stereo: bool, sRGB: bool, transparent: bool)

  /** `kDontCare`. */
  const DontCare := -1

  /** Stereo is a hard constraint: a stereo request admits only stereo candidates. */
  predicate Eligible(desired: Config, c: Config)
  {
    !(desired.stereo && !c.stereo)
  }

  /** The number of requested buffers the candidate lacks. */
  function Missing(d: Config, c: Config): nat
  {
    (if d.alphaBits > 0 && c.alphaBits == 0 then 1 else 0)
    + (if d.depthBits > 0 && c.depthBits == 0 then 1 else 0)
    + (if d.stencilBits > 0 && c.stencilBits == 0 then 1 else 0)
    + (if d.auxBuffers > 0 && c.auxBuffers < d.auxBuffers then d.auxBuffers - c.auxBuffers else 0)
    + (if d.samples > 0 && c.samples == 0 then 1 else 0)
    + (if d.transparent != c.transparent then 1 else 0)
  }

  /** The squared difference of one channel, or nothing when the desired size is `DontCare`. */
  function ChannelDiff(desired: int, actual: int): nat
  {
    if desired == DontCare then 0 else (desired - actual) * (desired - actual)
  }

  function ColorDiff(d: Config, c: Config): nat
  {
    ChannelDiff(d.redBits, c.redBits) + ChannelDiff(d.greenBits, c.greenBits) + ChannelDiff(d.blueBits, c.blueBits)
  }

  function ExtraDiff(d: Config, c: Config): nat
  {
    ChannelDiff(d.alphaBits, c.alphaBits) + ChannelDiff(d.depthBits, c.depthBits)
    + ChannelDiff(d.stencilBits, c.stencilBits)
    + ChannelDiff(d.accumRedBits, c.accumRedBits) + ChannelDiff(d.accumGreenBits, c.accumGreenBits)
    + ChannelDiff(d.accumBlueBits, c.accumBlueBits) + ChannelDiff(d.accumAlphaBits, c.accumAlphaBits)
    + ChannelDiff(d.samples, c.samples)
    + (if d.sRGB && !c.sRGB then 1 else 0)
  }

  datatype Score = Score(missing: nat, colorDiff: nat, extraDiff: nat)

  function ScoreOf(d: Config, c: Config): Score
  {
    Score(Missing(d, c), ColorDiff(d, c), ExtraDiff(d, c))
  }

  /** Fewer missing buffers first, then a closer colour, then closer other buffers. */
  predicate Better(a: Score, b: Score)
  {
    a.missing < b.missing
    || (a.missing == b.missing && (a.colorDiff < b.colorDiff || (a.colorDiff == b.colorDiff && a.extraDiff < b.extraDiff)))
  }

  /** `Better` is a strict total order on scores. */
  lemma BetterOrder(a: Score, b: Score, c: Score)
    ensures !Better(a, a)
    ensures Better(a, b) && Better(b, c) ==> Better(a, c)
    ensures Better(a, b) && !Better(c, b) ==> Better(a, c)
    ensures a == b || Better(a, b) || Better(b, a)
  {
  }

  /** A channel the caller does not care about does not affect the colour difference. */
  lemma DontCareChannelIgnored(d: Config, c: Config, red: int, green: int, blue: int)
    requires d.redBits == DontCare && d.greenBits == DontCare && d.blueBits == DontCare
    ensures ColorDiff(d, c.(redBits := red, greenBits := green, blueBits := blue)) == ColorDiff(d, c) == 0
  {
  }

  /**
   * `ChooseFramebufferConfig`: the index of the eligible candidate with the
   * best score, the earliest among equals; none when no candidate is
   * eligible.
   */
  method ChooseFramebufferConfig(desired: Config, alternatives: array<Config>, count: nat) returns (closest: Option<nat>)
    requires count <= alternatives.Length
    ensures closest.None? <==> forall i :: 0 <= i < count ==> !Eligible(desired, alternatives[i])
    ensures closest.Some? ==> closest.value < count && Eligible(desired, alternatives[closest.value])
    ensures closest.Some? ==> forall i :: 0 <= i < count && Eligible(desired, alternatives[i]) ==>
      !Better(ScoreOf(desired, alternatives[i]), ScoreOf(desired, alternatives[closest.value]))
    ensures closest.Some? ==> forall i :: 0 <= i < closest.value && Eligible(desired, alternatives[i]) ==>
      Better(ScoreOf(desired, alternatives[closest.value]), ScoreOf(desired, alternatives[i]))
  {
    closest := None;
    var least := Score(0, 0, 0);
    var i := 0;
    while i < count
      invariant i <= count
      invariant closest.None? <==> forall k :: 0 <= k < i ==> !Eligible(desired, alternatives[k])
      invariant closest.Some? ==> closest.value < i && Eligible(desired, alternatives[closest.value])
      invariant closest.Some? ==> least == ScoreOf(desired, alternatives[closest.value])
      invariant closest.Some? ==> forall k :: 0 <= k < i && Eligible(desired, alternatives[k]) ==>
        !Better(ScoreOf(desired, alternatives[k]), least)
      invariant closest.Some? ==> forall k :: 0 <= k < closest.value && Eligible(desired, alternatives[k]) ==>
        Better(least, ScoreOf(desired, alternatives[k]))
    {
      var current := alternatives[i];
      if Eligible(desired, current) {
        var score := ScoreOf(desired, current);
        if closest.None? || Better(score, least) {
          forall k | 0 <= k < i && Eligible(desired, alternatives[k])
            ensures Better(score, ScoreOf(desired, alternatives[k]))
          {
            BetterOrder(score, least, ScoreOf(desired, alternatives[k]));
          }
          closest := Some(i);
          least := score;
        }
      }
      i := i + 1;
    }
  }
}
