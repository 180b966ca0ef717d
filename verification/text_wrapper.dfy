/** The prefix-aware line breaker of the tree output (TextWrapper.swift). */
module TextWrapper {
  import opened Wrappers
  import opened ColorSupport

  /** How wide a string counts: its visible length in colour mode, its
      character count otherwise. */
  function Width(s: string, useColors: bool): (n: nat)
    ensures n <= |s|
    ensures !useColors ==> n == |s|
  {
    if useColors then VisibleLength(s) else |s|
  }

  /** The room left for text after the prefix, never less than one
      character: a prefix as wide as the line degrades to one character
      per line instead of looping. */
  function EffectiveWidth(prefix: string, maxWidth: int, useColors: bool): (w: nat)
    ensures w >= 1
    ensures w >= maxWidth - Width(prefix, useColors)
    ensures w == maxWidth - Width(prefix, useColors) || w == 1
  {
    var available := maxWidth - Width(prefix, useColors);
    if available < 1 then 1 else available
  }

  /** `s.lastIndex(of: " ")`. */
  function LastSpace(s: string): (r: Option<nat>)
    ensures r.Some? ==> r.value < |s| && s[r.value] == ' '
    ensures r.Some? ==> forall j :: r.value < j < |s| ==> s[j] != ' '
    ensures r.None? ==> forall j :: 0 <= j < |s| ==> s[j] != ' '
  {
    if |s| == 0 then None
    else if s[|s| - 1] == ' ' then Some(|s| - 1)
    else LastSpace(s[..|s| - 1])
  }

  /** One output line's share of the text, and whether the line ended at
      a space that the wrapper dropped. */
  datatype Slice = Slice(text: string, spaceBreak: bool)

  /** The text the slices came from: each slice followed by the space it
      dropped, if it broke at one. */
  function Rejoin(ss: seq<Slice>): string
  {
    if |ss| == 0 then ""
    else ss[0].text + (if ss[0].spaceBreak then " " else "") + Rejoin(ss[1..])
  }

  /** The loop of `wrap`, one iteration per slice: while the remaining text
      is too wide, cut it at the last space inside the window of `width`
      characters (dropping that space) or, with no space there, after
      exactly `width` characters. */
  function Slices(remaining: string, width: nat, useColors: bool): (r: seq<Slice>)
    requires width >= 1
    ensures |r| == 0 <==> |remaining| == 0
    ensures |r| <= |remaining|
    ensures Rejoin(r) == remaining
    decreases |remaining|
  {
    if |remaining| == 0 then []
    else if Width(remaining, useColors) <= width then [Slice(remaining, false)]
    else
      var space := LastSpace(remaining[..width]);
      var len := if space.Some? then space.value else width;
      var skip := if space.Some? then len + 1 else width;
      var rest := Slices(remaining[skip..], width, useColors);
      assert remaining == remaining[..len] + (if space.Some? then " " else "") + remaining[skip..];
      assert ([Slice(remaining[..len], space.Some?)] + rest)[1..] == rest;
      [Slice(remaining[..len], space.Some?)] + rest
  }

  /** `TextWrapper.wrap(text, prefix:, maxWidth:, useColors:)`: the slices
      of `text`, each behind `prefix`. */
  function Wrap(text: string, prefix: string, maxWidth: int, useColors: bool): (lines: seq<string>)
    ensures |text| == 0 ==> lines == []
    ensures |text| > 0 && Width(text, useColors) <= EffectiveWidth(prefix, maxWidth, useColors) ==>
              lines == [prefix + text]
    ensures |lines| <= |text|
    ensures forall k :: 0 <= k < |lines| ==> prefix <= lines[k]
    ensures !useColors && |prefix| < maxWidth ==> forall k :: 0 <= k < |lines| ==> |lines[k]| <= maxWidth
  {
    SlicesFit(text, EffectiveWidth(prefix, maxWidth, useColors), useColors);
    Prefixed(prefix, Slices(text, EffectiveWidth(prefix, maxWidth, useColors), useColors))
  }

  /** Each slice behind the prefix, in order. */
  function Prefixed(prefix: string, ss: seq<Slice>): (lines: seq<string>)
    ensures |lines| == |ss|
    ensures forall k :: 0 <= k < |ss| ==> lines[k] == prefix + ss[k].text
  {
    if |ss| == 0 then [] else [prefix + ss[0].text] + Prefixed(prefix, ss[1..])
  }

  /** Every slice fits the window: its measured width is at most `width`
      (in plain mode, its length is). */
  lemma {:induction false} SlicesFit(remaining: string, width: nat, useColors: bool)
    requires width >= 1
    ensures forall k :: 0 <= k < |Slices(remaining, width, useColors)| ==>
              Width(Slices(remaining, width, useColors)[k].text, useColors) <= width
    decreases |remaining|
  {
    if |remaining| > 0 && Width(remaining, useColors) > width {
      var space := LastSpace(remaining[..width]);
      var len := if space.Some? then space.value else width;
      var skip := if space.Some? then len + 1 else width;
      SlicesFit(remaining[skip..], width, useColors);
      assert Width(remaining[..len], useColors) <= len <= width;
    }
  }

  /** The break rule, for text wider than the window: the first slice
      stops before the last space among the first `width` characters and
      that space is dropped; with no space there, the first slice is
      exactly the first `width` characters. Either way at least one more
      slice follows, made from the rest of the text. */
  lemma BreakRule(remaining: string, width: nat, useColors: bool)
    requires width >= 1 && Width(remaining, useColors) > width
    ensures var r := Slices(remaining, width, useColors);
      && |r| >= 2
      && (r[0].spaceBreak ==>
            && |r[0].text| < width
            && r[0].text == remaining[..|r[0].text|]
            && remaining[|r[0].text|] == ' '
            && (forall j :: |r[0].text| < j < width ==> remaining[j] != ' ')
            && r[1..] == Slices(remaining[|r[0].text| + 1..], width, useColors))
      && (!r[0].spaceBreak ==>
            && r[0].text == remaining[..width]
            && (forall j :: 0 <= j < width ==> remaining[j] != ' ')
            && r[1..] == Slices(remaining[width..], width, useColors))
  {
    var space := LastSpace(remaining[..width]);
    if space.Some? {
      assert forall j :: space.value < j < width ==> remaining[..width][j] == remaining[j];
    } else {
      assert forall j :: 0 <= j < width ==> remaining[..width][j] == remaining[j];
    }
  }

  /** Only the final slice may be shorter than the window without having
      broken at a space, and the final slice never drops a space. */
  lemma HardCutsAreFull(remaining: string, width: nat, useColors: bool)
    requires width >= 1
    ensures var r := Slices(remaining, width, useColors);
      && (|r| > 0 ==> !r[|r| - 1].spaceBreak)
      && forall k :: 0 <= k < |r| - 1 && !r[k].spaceBreak ==> |r[k].text| == width
  {
    LastSliceKeepsSpaces(remaining, width, useColors);
    InnerHardCutsFull(remaining, width, useColors);
  }

  lemma {:induction false} LastSliceKeepsSpaces(remaining: string, width: nat, useColors: bool)
    requires width >= 1
    ensures var r := Slices(remaining, width, useColors);
      |r| > 0 ==> !r[|r| - 1].spaceBreak
    decreases |remaining|
  {
    if |remaining| > 0 && Width(remaining, useColors) > width {
      var space := LastSpace(remaining[..width]);
      var skip := if space.Some? then space.value + 1 else width;
      SlicesStep(remaining, width, useColors);
      LastSliceKeepsSpaces(remaining[skip..], width, useColors);
      assert |Slices(remaining[skip..], width, useColors)| > 0;
    } else if |remaining| > 0 {
      SlicesFits(remaining, width, useColors);
    }
  }

  lemma {:induction false} InnerHardCutsFull(remaining: string, width: nat, useColors: bool)
    requires width >= 1
    ensures var r := Slices(remaining, width, useColors);
      forall k :: 0 <= k < |r| - 1 && !r[k].spaceBreak ==> |r[k].text| == width
    decreases |remaining|
  {
    if |remaining| > 0 && Width(remaining, useColors) > width {
      var r := Slices(remaining, width, useColors);
      var space := LastSpace(remaining[..width]);
      var len := if space.Some? then space.value else width;
      var skip := if space.Some? then len + 1 else width;
      var rest := Slices(remaining[skip..], width, useColors);
      SlicesStep(remaining, width, useColors);
      InnerHardCutsFull(remaining[skip..], width, useColors);
      forall k | 0 <= k < |r| - 1 && !r[k].spaceBreak
        ensures |r[k].text| == width
      {
        if k > 0 {
          assert r[k] == rest[k - 1];
        }
      }
    } else if |remaining| > 0 {
      SlicesFits(remaining, width, useColors);
    }
  }

  /** Reconstruction: the lines of `wrap` are the prefix followed by the
      slices, and putting back one space at each space break (nothing at a
      hard cut) gives back the original text. */
  lemma WrapRoundTrip(text: string, prefix: string, maxWidth: int, useColors: bool)
    ensures var ss := Slices(text, EffectiveWidth(prefix, maxWidth, useColors), useColors);
      && Rejoin(ss) == text
      && |Wrap(text, prefix, maxWidth, useColors)| == |ss|
      && forall k :: 0 <= k < |ss| ==> Wrap(text, prefix, maxWidth, useColors)[k] == prefix + ss[k].text
  {
  }

  /** One step of the loop on text wider than the window, spelled out. */
  lemma SlicesStep(remaining: string, width: nat, useColors: bool)
    requires width >= 1 && Width(remaining, useColors) > width
    ensures var space := LastSpace(remaining[..width]);
      var len := if space.Some? then space.value else width;
      var skip := if space.Some? then len + 1 else width;
      Slices(remaining, width, useColors) ==
        [Slice(remaining[..len], space.Some?)] + Slices(remaining[skip..], width, useColors)
  {
  }

  /** Text that fits the window is one slice. */
  lemma SlicesFits(remaining: string, width: nat, useColors: bool)
    requires width >= 1 && |remaining| > 0 && Width(remaining, useColors) <= width
    ensures Slices(remaining, width, useColors) == [Slice(remaining, false)]
  {
  }

  /** With a one-character line, "Hi" comes out one character per line. */
  lemma WrapHiAtWidthOne()
    ensures Wrap("Hi", "", 1, false) == ["H", "i"]
  {
    assert "Hi"[..1] == "H" && "Hi"[1..] == "i";
    assert LastSpace("H") == None;
    SlicesStep("Hi", 1, false);
    SlicesFits("i", 1, false);
    var ss := Slices("Hi", 1, false);
    assert ss == [Slice("H", false), Slice("i", false)];
    assert "" + "H" == "H" && "" + "i" == "i";
    assert Prefixed("", ss) == ["H", "i"];
    assert Wrap("Hi", "", 1, false) == Prefixed("", ss);
  }

  /** "Hello World Extra" at width 12 breaks at the space after "World":
      the space at index 11 is the last one in the 12-character window. */
  lemma WrapHelloWorldExtra()
    ensures Wrap("Hello World Extra", "", 12, false) == ["Hello World", "Extra"]
  {
    var t := "Hello World Extra";
    assert t[..12] == "Hello World ";
    assert LastSpace("Hello World ") == Some(11);
    assert t[..11] == "Hello World" && t[12..] == "Extra";
    SlicesStep(t, 12, false);
    SlicesFits("Extra", 12, false);
    var ss := Slices(t, 12, false);
    assert ss == [Slice("Hello World", true), Slice("Extra", false)];
    assert "" + "Hello World" == "Hello World" && "" + "Extra" == "Extra";
    assert Prefixed("", ss) == ["Hello World", "Extra"];
    assert Wrap(t, "", 12, false) == Prefixed("", ss);
  }

  /** In a one-character window, text without spaces is cut into its
      characters. */
  lemma {:induction false} SlicesUnitWidth(remaining: string)
    requires forall j :: 0 <= j < |remaining| ==> remaining[j] != ' '
    ensures var r := Slices(remaining, 1, false);
      && |r| == |remaining|
      && forall k :: 0 <= k < |r| ==> r[k] == Slice([remaining[k]], false)
    decreases |remaining|
  {
    if |remaining| > 1 {
      assert remaining[..1] == [remaining[0]];
      assert LastSpace([remaining[0]]) == None;
      SlicesStep(remaining, 1, false);
      SlicesUnitWidth(remaining[1..]);
    } else if |remaining| == 1 {
      SlicesFits(remaining, 1, false);
      assert remaining == [remaining[0]];
    }
  }

  /** A prefix at least as wide as the line still yields output: the
      window is clamped to one character and text without spaces comes
      out one character per line, each behind the full prefix. */
  lemma WrapPrefixAsWideAsLine(text: string, prefix: string, maxWidth: int)
    requires |prefix| >= maxWidth - 1
    requires forall j :: 0 <= j < |text| ==> text[j] != ' '
    ensures var lines := Wrap(text, prefix, maxWidth, false);
      && |lines| == |text|
      && forall k :: 0 <= k < |lines| ==> lines[k] == prefix + [text[k]]
  {
    assert EffectiveWidth(prefix, maxWidth, false) == 1;
    SlicesUnitWidth(text);
  }
}
