/** The terminal colour codes of the tree output, and how text is measured
    once they are taken out (ColorSupport.swift).

    A string is a sequence of characters, each standing for one Swift
    `Character`; widths everywhere are counts of such characters. */
module ColorSupport {
  import opened Strings

  /** The escape character that starts every code. */
  const ESC: char := '\U{1B}'

  /** A Select Graphic Rendition sequence: ESC, '[', the parameter digits
      and 'm'. Every known code has this shape. */
  function Sgr(params: string): string {
    [ESC, '['] + params + ['m']
  }

  const Reset: string := Sgr("0")
  const Bold: string := Sgr("1")
  const Gray: string := Sgr("90")
  const Red: string := Sgr("31")
  const Green: string := Sgr("32")
  const Yellow: string := Sgr("33")
  const Blue: string := Sgr("34")
  const Magenta: string := Sgr("35")
  const Cyan: string := Sgr("36")
  const White: string := Sgr("37")
  const BrightBlue: string := Sgr("94")
  const BrightMagenta: string := Sgr("95")
  const BrightCyan: string := Sgr("96")

  /** The codes `StripColors` removes, in the order it removes them. */
  const ColorCodes: seq<string> := [
    Reset, Bold, Gray, Red, Green, Yellow, Blue, Magenta, Cyan, White,
    BrightBlue, BrightMagenta, BrightCyan
  ]

  /** `s` has no escape character, so no code can occur in it. */
  predicate NoEsc(s: string) {
    forall i :: 0 <= i < |s| ==> s[i] != ESC
  }

  /** `code` occurs in `s` at some position. */
  predicate Occurs(code: string, s: string) {
    exists i :: 0 <= i <= |s| && code <= s[i..]
  }

  /** `s.replacingOccurrences(of: code, with: "")`: a left-to-right scan
      that deletes every non-overlapping occurrence of `code`. */
  function RemoveAll(s: string, code: string): (r: string)
    requires |code| > 0
    ensures |r| <= |s|
    decreases |s|
  {
    if |s| == 0 then s
    else if code <= s then RemoveAll(s[|code|..], code)
    else [s[0]] + RemoveAll(s[1..], code)
  }

  /** The left fold of `StripColors`, from the `k`-th code onwards. */
  function StripFrom(t: string, k: nat): (r: string)
    requires k <= |ColorCodes|
    ensures |r| <= |t|
    decreases |ColorCodes| - k
  {
    if k == |ColorCodes| then t
    else StripFrom(RemoveAll(t, ColorCodes[k]), k + 1)
  }

  /** Removes every occurrence of each known code, one code after the
      other in table order. */
  function StripColors(t: string): (r: string)
    ensures |r| <= |t|
  {
    StripFrom(t, 0)
  }

  /** The number of characters left once the codes are stripped. */
  function VisibleLength(t: string): (n: nat)
    ensures n <= |t|
  {
    |StripColors(t)|
  }

  /** Text without an escape character contains none of the codes. */
  lemma NoEscNoCode(t: string)
    ensures NoEsc(t) ==> forall c :: c in ColorCodes ==> !Occurs(c, t)
  {
    if NoEsc(t) {
      forall c, i | c in ColorCodes && 0 <= i <= |t| ensures !(c <= t[i..]) {
        assert c[0] == ESC;
        if i < |t| {
          assert t[i..][0] == t[i];
        }
      }
    }
  }

  /** The parameter of every known code is one or two decimal digits. */
  predicate IsParam(p: string) {
    1 <= |p| <= 2 && forall j :: 0 <= j < |p| ==> '0' <= p[j] <= '9'
  }

  /** Each known code is an SGR sequence with a one- or two-digit
      parameter; in particular it starts with the only escape it holds. */
  lemma CodeShape(c: string)
    requires c in ColorCodes
    ensures IsParam(c[2..|c| - 1]) && c == Sgr(c[2..|c| - 1])
    ensures |c| >= 4 && c[0] == ESC && NoEsc(c[1..])
  {
    var p := c[2..|c| - 1];
    assert c == Sgr(p);
  }

  /** No code is a prefix of a different code followed by anything: at the
      start of one code no other code can match. */
  lemma CodesPrefixFree(c: string, d: string, rest: string)
    requires c in ColorCodes && d in ColorCodes && c != d
    ensures !(c <= d + rest)
  {
    CodeShape(c);
    CodeShape(d);
    var s := d + rest;
    var p, q := c[2..|c| - 1], d[2..|d| - 1];
    if |p| == |q| {
      assert |c| == |d|;
      var j :| 0 <= j < |c| && c[j] != d[j];
      assert s[j] == d[j];
    } else if |p| < |q| {
      assert c[3] == 'm';
      assert s[3] == d[3] == q[1];
    } else {
      assert c[3] == p[1];
      assert s[3] == d[3] == 'm';
    }
  }

  /** Escape-free text in front of the scan position passes through
      `RemoveAll` untouched. */
  lemma {:induction false} RemoveAllPlainHead(u: string, rest: string, code: string)
    requires |code| > 0 && code[0] == ESC && NoEsc(u)
    ensures RemoveAll(u + rest, code) == u + RemoveAll(rest, code)
  {
    if |u| > 0 {
      var s := u + rest;
      assert s[0] == u[0] != ESC;
      assert code[0] != s[0];
      assert s[1..] == u[1..] + rest;
      RemoveAllPlainHead(u[1..], rest, code);
      calc {
        RemoveAll(s, code);
        [s[0]] + RemoveAll(s[1..], code);
        [u[0]] + (u[1..] + RemoveAll(rest, code));
        { assert [u[0]] + u[1..] == u; }
        u + RemoveAll(rest, code);
      }
    } else {
      assert u + rest == rest;
    }
  }

  /** A piece of coloured text: either one of the known codes or a run of
      characters without any escape. */
  predicate IsPiece(p: string, k: nat)
    requires k <= |ColorCodes|
  {
    NoEsc(p) || p in ColorCodes[k..]
  }

  /** The pieces that are not codes, in order. */
  function PlainPieces(ps: seq<string>): seq<string>
  {
    if |ps| == 0 then []
    else if ps[0] in ColorCodes then PlainPieces(ps[1..])
    else [ps[0]] + PlainPieces(ps[1..])
  }

  /** The pieces other than `code`, in order. */
  function Without(ps: seq<string>, code: string): seq<string>
  {
    if |ps| == 0 then []
    else if ps[0] == code then Without(ps[1..], code)
    else [ps[0]] + Without(ps[1..], code)
  }

  /** At the start of an occurrence of `code`, the scan skips it. */
  lemma RemoveAllAtCode(code: string, rest: string)
    requires |code| > 0
    ensures RemoveAll(code + rest, code) == RemoveAll(rest, code)
  {
    assert code <= code + rest;
    assert (code + rest)[|code|..] == rest;
  }

  /** Where `code` does not match, the scan copies one character and goes
      on; a code other than `code` is copied whole, since no escape follows
      its first character. */
  lemma RemoveAllAtOtherCode(c: string, rest: string, code: string)
    requires |code| > 0 && code[0] == ESC
    requires |c| > 0 && NoEsc(c[1..]) && !(code <= c + rest)
    ensures RemoveAll(c + rest, code) == c + RemoveAll(rest, code)
  {
    var s := c + rest;
    assert s[1..] == c[1..] + rest;
    assert RemoveAll(s, code) == [c[0]] + RemoveAll(c[1..] + rest, code);
    RemoveAllPlainHead(c[1..], rest, code);
    assert [c[0]] + c[1..] == c;
  }

  /** On text made of pieces, removing one code removes exactly the pieces
      that are that code. */
  lemma {:induction false} RemoveAllPieces(ps: seq<string>, code: string)
    requires code in ColorCodes
    requires forall i :: 0 <= i < |ps| ==> IsPiece(ps[i], 0)
    ensures RemoveAll(Concat(ps), code) == Concat(Without(ps, code))
  {
    if |ps| > 0 {
      var p, rest := ps[0], Concat(ps[1..]);
      assert Concat(ps) == p + rest;
      assert IsPiece(p, 0);
      RemoveAllPieces(ps[1..], code);
      if p == code {
        RemoveAllAtCode(code, rest);
      } else if NoEsc(p) {
        CodeShape(code);
        RemoveAllPlainHead(p, rest, code);
      } else {
        assert p in ColorCodes;
        CodeShape(p);
        CodeShape(code);
        CodesPrefixFree(code, p, rest);
        RemoveAllAtOtherCode(p, rest, code);
      }
    }
  }

  /** Dropping one code keeps the other pieces and only them. */
  lemma {:induction false} WithoutMembers(ps: seq<string>, code: string)
    ensures forall q :: q in Without(ps, code) ==> q in ps && q != code
  {
    if |ps| > 0 {
      WithoutMembers(ps[1..], code);
    }
  }

  /** Pieces that are all codes have no plain piece among them. */
  lemma {:induction false} PlainPiecesOfCodes(cs: seq<string>)
    requires forall i :: 0 <= i < |cs| ==> cs[i] in ColorCodes
    ensures PlainPieces(cs) == []
  {
    if |cs| > 0 {
      PlainPiecesOfCodes(cs[1..]);
    }
  }

  /** Dropping one code from the pieces keeps the plain pieces as they
      were. */
  lemma {:induction false} PlainPiecesWithout(ps: seq<string>, code: string)
    requires code in ColorCodes
    ensures PlainPieces(Without(ps, code)) == PlainPieces(ps)
  {
    if |ps| > 0 {
      PlainPiecesWithout(ps[1..], code);
    }
  }

  /** With no code left among the pieces, they are all plain. */
  lemma {:induction false} PlainPiecesAll(ps: seq<string>)
    requires forall i :: 0 <= i < |ps| ==> ps[i] !in ColorCodes
    ensures PlainPieces(ps) == ps
  {
    if |ps| > 0 {
      PlainPiecesAll(ps[1..]);
    }
  }

  /** The fold from the `k`-th code, on pieces whose codes are all among
      the codes still to be removed. */
  lemma {:induction false} StripFromPieces(ps: seq<string>, k: nat)
    requires k <= |ColorCodes|
    requires forall i :: 0 <= i < |ps| ==> IsPiece(ps[i], k)
    ensures StripFrom(Concat(ps), k) == Concat(PlainPieces(ps))
    decreases |ColorCodes| - k
  {
    if k == |ColorCodes| {
      forall i | 0 <= i < |ps| ensures ps[i] !in ColorCodes {
        if ps[i] in ColorCodes { CodeShape(ps[i]); }
      }
      PlainPiecesAll(ps);
    } else {
      var code := ColorCodes[k];
      var qs := Without(ps, code);
      RemoveAllPieces(ps, code);
      WithoutMembers(ps, code);
      forall i | 0 <= i < |qs| ensures IsPiece(qs[i], k + 1) {
        assert qs[i] in ps;
        if !NoEsc(qs[i]) {
          assert qs[i] in ColorCodes[k..];
          assert qs[i] != ColorCodes[k];
        }
      }
      StripFromPieces(qs, k + 1);
      PlainPiecesWithout(ps, code);
    }
  }

  /** Text made of known codes and escape-free runs strips to exactly the
      escape-free runs, in their original order. */
  lemma StripPieces(ps: seq<string>)
    requires forall i :: 0 <= i < |ps| ==> NoEsc(ps[i]) || ps[i] in ColorCodes
    ensures StripColors(Concat(ps)) == Concat(PlainPieces(ps))
    ensures VisibleLength(Concat(ps)) == |Concat(PlainPieces(ps))|
  {
    assert ColorCodes[0..] == ColorCodes;
    StripFromPieces(ps, 0);
  }

  lemma CodeNonEmpty(c: string)
    requires c in ColorCodes
    ensures |c| > 0
  {
    CodeShape(c);
  }

  /** Escape-free text is never one of the codes. */
  lemma PlainNotCode(p: string)
    requires NoEsc(p)
    ensures p !in ColorCodes
  {
    if p in ColorCodes {
      CodeShape(p);
    }
  }

  /** Any run of known codes, in any order and with repeats, is invisible. */
  lemma StripCodesOnly(cs: seq<string>)
    requires forall i :: 0 <= i < |cs| ==> cs[i] in ColorCodes
    ensures StripColors(Concat(cs)) == ""
    ensures VisibleLength(Concat(cs)) == 0
  {
    StripPieces(cs);
    PlainPiecesOfCodes(cs);
  }

  /** Stripping leaves text without an escape character unchanged. */
  lemma StripPlainText(t: string)
    requires NoEsc(t)
    ensures StripColors(t) == t
    ensures VisibleLength(t) == |t|
  {
    NoEscNoCode(t);
    StripUnchangedIff(t);
  }

  /** `RemoveAll` copies a string in which the code does not occur. */
  lemma {:induction false} RemoveAllAbsent(s: string, code: string)
    requires |code| > 0 && !Occurs(code, s)
    ensures RemoveAll(s, code) == s
    decreases |s|
  {
    if |s| > 0 {
      assert s[0..] == s;
      assert !(code <= s);
      forall i | 0 <= i <= |s[1..]|
        ensures !(code <= s[1..][i..])
      {
        assert s[1..][i..] == s[i + 1..];
      }
      RemoveAllAbsent(s[1..], code);
      assert s == [s[0]] + s[1..];
    }
  }

  /** `RemoveAll` shortens a string in which the code occurs. */
  lemma {:induction false} RemoveAllShortens(s: string, code: string)
    requires |code| > 0 && Occurs(code, s)
    ensures |RemoveAll(s, code)| < |s|
    decreases |s|
  {
    var i :| 0 <= i <= |s| && code <= s[i..];
    if !(code <= s) {
      assert i != 0 by {
        assert s[0..] == s;
      }
      assert s[1..][i - 1..] == s[i..];
      RemoveAllShortens(s[1..], code);
    }
  }

  /** From the `k`-th code on, the fold shortens the text when one of the
      remaining codes occurs in it. */
  lemma {:induction false} StripFromShortens(t: string, k: nat)
    requires k <= |ColorCodes|
    requires exists j :: k <= j < |ColorCodes| && Occurs(ColorCodes[j], t)
    ensures |StripFrom(t, k)| < |t|
    decreases |ColorCodes| - k
  {
    CodeNonEmpty(ColorCodes[k]);
    if Occurs(ColorCodes[k], t) {
      RemoveAllShortens(t, ColorCodes[k]);
    } else {
      RemoveAllAbsent(t, ColorCodes[k]);
      StripFromShortens(t, k + 1);
    }
  }

  /** Stripping changes nothing exactly when none of the known codes
      occurs in the text: any other escape sequence is left intact. */
  lemma StripUnchangedIff(t: string)
    ensures StripColors(t) == t <==> forall c :: c in ColorCodes ==> !Occurs(c, t)
    ensures (exists c :: c in ColorCodes && Occurs(c, t)) ==> |StripColors(t)| < |t|
  {
    if forall c :: c in ColorCodes ==> !Occurs(c, t) {
      forall j | 0 <= j < |ColorCodes|
        ensures RemoveAll(t, ColorCodes[j]) == t
      {
        CodeNonEmpty(ColorCodes[j]);
        RemoveAllAbsent(t, ColorCodes[j]);
      }
      StripFromSkip(t, 0, |ColorCodes|);
    } else {
      var c :| c in ColorCodes && Occurs(c, t);
      var j :| 0 <= j < |ColorCodes| && ColorCodes[j] == c;
      StripFromShortens(t, 0);
    }
  }

  /** "ESC[32mGreenESC[0m and ESC[31mRedESC[0m" strips to
      "Green and Red". */
  lemma StripGreenAndRed()
    ensures StripColors(Green + "Green" + Reset + " and " + Red + "Red" + Reset) == "Green and Red"
  {
    var ps := [Green, "Green", Reset, " and ", Red, "Red", Reset];
    GreenAndRedShape(ps);
    GreenAndRedConcat(ps);
    GreenAndRedPlain(ps);
    StripPieces(ps);
  }

  lemma GreenAndRedShape(ps: seq<string>)
    requires ps == [Green, "Green", Reset, " and ", Red, "Red", Reset]
    ensures forall i :: 0 <= i < |ps| ==> NoEsc(ps[i]) || ps[i] in ColorCodes
  {
    assert NoEsc("Green") && NoEsc(" and ") && NoEsc("Red");
  }

  lemma GreenAndRedConcat(ps: seq<string>)
    requires ps == [Green, "Green", Reset, " and ", Red, "Red", Reset]
    ensures Concat(ps) == Green + "Green" + Reset + " and " + Red + "Red" + Reset
  {
    var l1 := [Green];
    var l2 := l1 + ["Green"];
    var l3 := l2 + [Reset];
    var l4 := l3 + [" and "];
    var l5 := l4 + [Red];
    var l6 := l5 + ["Red"];
    var l7 := l6 + [Reset];
    assert l7 == ps;
    ConcatOne(Green);
    ConcatSnoc(l1, "Green");
    ConcatSnoc(l2, Reset);
    ConcatSnoc(l3, " and ");
    ConcatSnoc(l4, Red);
    ConcatSnoc(l5, "Red");
    ConcatSnoc(l6, Reset);
  }

  lemma GreenAndRedPlain(ps: seq<string>)
    requires ps == [Green, "Green", Reset, " and ", Red, "Red", Reset]
    ensures Concat(PlainPieces(ps)) == "Green and Red"
  {
    GreenAndRedPieces(ps);
    var l1 := ["Green"];
    var l2 := l1 + [" and "];
    var l3 := l2 + ["Red"];
    assert l3 == ["Green", " and ", "Red"];
    ConcatOne("Green");
    ConcatSnoc(l1, " and ");
    ConcatSnoc(l2, "Red");
  }

  lemma GreenAndRedPieces(ps: seq<string>)
    requires ps == [Green, "Green", Reset, " and ", Red, "Red", Reset]
    ensures PlainPieces(ps) == ["Green", " and ", "Red"]
  {
    var p5 := ["Red", Reset];
    var p3 := [" and ", Red] + p5;
    var p1 := ["Green", Reset] + p3;
    assert PlainPieces(p5) == ["Red"] by {
      assert p5 == ["Red", Reset] + [];
      PlainPiecesText("Red", Reset, []);
    }
    assert PlainPieces(p3) == [" and ", "Red"] by {
      PlainPiecesText(" and ", Red, p5);
    }
    assert PlainPieces(p1) == ["Green", " and ", "Red"] by {
      PlainPiecesText("Green", Reset, p3);
    }
    assert ps == [Green] + p1;
    PlainPiecesCode(Green, p1);
  }

  lemma PlainPiecesCode(c: string, rest: seq<string>)
    requires c in ColorCodes
    ensures PlainPieces([c] + rest) == PlainPieces(rest)
  {
    assert ([c] + rest)[1..] == rest;
  }

  lemma PlainPiecesText(p: string, c: string, rest: seq<string>)
    requires NoEsc(p) && c in ColorCodes
    ensures PlainPieces([p, c] + rest) == [p] + PlainPieces(rest)
  {
    PlainNotCode(p);
    assert ([p, c] + rest)[1..] == [c] + rest;
    PlainPiecesCode(c, rest);
  }

  /** Text painted with a known code and closed with the reset code
      strips back to the unpainted text, and only the text is visible. */
  lemma StripPainted(head: string, code: string, body: string)
    requires NoEsc(head) && NoEsc(body) && code in ColorCodes
    ensures StripColors(head + code + body + Reset) == head + body
    ensures VisibleLength(head + code + body + Reset) == |head| + |body|
  {
    var ps := [head, code, body, Reset];
    assert Concat(ps) == head + code + body + Reset by {
      assert Concat([Reset]) == Reset;
      assert Concat([body, Reset]) == body + Reset;
      assert Concat([code, body, Reset]) == code + (body + Reset);
    }
    assert PlainPieces(ps) == [head, body] by {
      assert PlainPieces([Reset]) == [] by { PlainPiecesCode(Reset, []); }
      PlainPiecesText(body, Reset, []);
      assert [code, body, Reset] == [code] + [body, Reset];
      PlainPiecesCode(code, [body, Reset]);
      PlainNotCode(head);
      assert ps[1..] == [code, body, Reset];
    }
    assert Concat([head, body]) == head + body by {
      assert Concat([body]) == body;
    }
    StripPieces(ps);
  }

  /** A character that can be part of a known code. */
  predicate IsCodeChar(ch: char) {
    ch == ESC || ch == '[' || ch == 'm' || '0' <= ch <= '9'
  }

  /** The characters of `s` that no code can contain, in order. */
  function TextChars(s: string): (r: string)
    ensures |r| <= |s|
  {
    if |s| == 0 then ""
    else if IsCodeChar(s[0]) then TextChars(s[1..])
    else [s[0]] + TextChars(s[1..])
  }

  lemma {:induction false} TextCharsAppend(a: string, b: string)
    ensures TextChars(a + b) == TextChars(a) + TextChars(b)
  {
    if |a| == 0 {
      assert a + b == b;
    } else {
      assert (a + b)[1..] == a[1..] + b;
      TextCharsAppend(a[1..], b);
    }
  }

  /** A code consists of code characters only. */
  lemma CodeHasNoTextChars(code: string)
    requires code in ColorCodes
    ensures TextChars(code) == ""
  {
    CodeShape(code);
    var p := code[2..|code| - 1];
    assert code == [ESC] + ['['] + p + ['m'];
    TextCharsAppend([ESC] + ['['] + p, ['m']);
    TextCharsAppend([ESC] + ['['], p);
    TextCharsAppend([ESC], ['[']);
    assert TextChars(p) == "" by {
      if |p| == 2 { assert p == [p[0]] + [p[1]]; TextCharsAppend([p[0]], [p[1]]); }
    }
  }

  /** Removing one code deletes only code characters. */
  lemma {:induction false} RemoveAllKeepsText(s: string, code: string)
    requires code in ColorCodes
    ensures TextChars(RemoveAll(s, code)) == TextChars(s)
    decreases |s|
  {
    CodeShape(code);
    if |s| > 0 {
      if code <= s {
        CodeHasNoTextChars(code);
        assert s[..|code|] == code;
        assert s == code + s[|code|..];
        TextCharsAppend(code, s[|code|..]);
        RemoveAllKeepsText(s[|code|..], code);
      } else {
        assert s == [s[0]] + s[1..];
        TextCharsAppend([s[0]], s[1..]);
        TextCharsAppend([s[0]], RemoveAll(s[1..], code));
        RemoveAllKeepsText(s[1..], code);
      }
    }
  }

  lemma {:induction false} StripFromKeepsText(t: string, k: nat)
    requires k <= |ColorCodes|
    ensures TextChars(StripFrom(t, k)) == TextChars(t)
    decreases |ColorCodes| - k
  {
    if k < |ColorCodes| {
      RemoveAllKeepsText(t, ColorCodes[k]);
      StripFromKeepsText(RemoveAll(t, ColorCodes[k]), k + 1);
    }
  }

  /** Whatever the input, stripping deletes only characters that can
      belong to a code: every other character survives, in its original
      order. */
  lemma StripKeepsText(t: string)
    ensures TextChars(StripColors(t)) == TextChars(t)
  {
    StripFromKeepsText(t, 0);
  }

  /** Codes from the `k`-th to the `m`-th that `RemoveAll` leaves alone do
      not change the fold. */
  lemma {:induction false} StripFromSkip(t: string, k: nat, m: nat)
    requires k <= m <= |ColorCodes|
    requires forall j :: k <= j < m ==> RemoveAll(t, ColorCodes[j]) == t
    ensures StripFrom(t, k) == StripFrom(t, m)
    decreases m - k
  {
    if k < m {
      StripFromSkip(t, k + 1, m);
    }
  }

  /** ESC[91m (bright red) is not in the table. */
  lemma BrightRedNotCode(c: string)
    requires c in ColorCodes
    ensures c != Sgr("91")
  {
    var i :| 0 <= i < |ColorCodes| && ColorCodes[i] == c;
    assert |c| == 4 || c[2] != '9' || c[3] != '1' by {
      if i == 0 { assert c == Sgr("0"); }
      else if i == 1 { assert c == Sgr("1"); }
      else if i == 2 { assert c == Sgr("90"); assert c[3] == '0'; }
      else if i <= 9 { assert c[2] == '3'; }
      else { assert c[3] != '1'; }
    }
    assert Sgr("91")[2] == '9' && Sgr("91")[3] == '1';
  }

  /** A string starting with a code outside the table contains none of
      the table's codes, so `RemoveAll` copies it whole. */
  lemma RemoveAllUnknownCode(code: string)
    requires code in ColorCodes
    ensures RemoveAll(Sgr("91") + "X", code) == Sgr("91") + "X"
  {
    var t := Sgr("91") + "X";
    CodeShape(code);
    BrightRedNotCode(code);
    assert !(code <= t) by {
      if |code| == 4 {
        assert code[3] == 'm' != t[3];
      } else {
        assert code == Sgr(code[2..4]);
        assert code[2..4] != "91";
        assert t[2..4] == "91";
      }
    }
    assert t == [t[0]] + t[1..];
    RemoveAllAtOtherCode([t[0]], t[1..], code);
    RemoveAllPlainHead(t[1..], "", code);
    assert t[1..] + "" == t[1..];
  }

  /** An escape sequence outside the table, such as ESC[91m, survives
      stripping. */
  lemma StripKeepsUnknownCode()
    ensures StripColors(Sgr("91") + "X") == Sgr("91") + "X"
  {
    var t := Sgr("91") + "X";
    forall j | 0 <= j < |ColorCodes| ensures RemoveAll(t, ColorCodes[j]) == t {
      RemoveAllUnknownCode(ColorCodes[j]);
    }
    StripFromSkip(t, 0, |ColorCodes|);
  }

  /** Bright cyan is the last code of the table and appears only there. */
  lemma BrightCyanOnlyLast(j: nat)
    requires j < |ColorCodes| - 1
    ensures ColorCodes[j] != BrightCyan
  {
    var c := ColorCodes[j];
    assert |c| == 4 || c[2] != '9' || c[3] != '6' by {
      if j == 0 { assert c == Sgr("0"); }
      else if j == 1 { assert c == Sgr("1"); }
      else if j == 2 { assert c == Sgr("90"); assert c[3] == '0'; }
      else if j <= 9 { assert c[2] == '3'; }
      else if j == 10 { assert c == Sgr("94"); assert c[3] == '4'; }
      else { assert c == Sgr("95"); assert c[3] == '5'; }
    }
    assert BrightCyan[2] == '9' && BrightCyan[3] == '6';
  }

  /** ESC '[' then bright cyan then "0m": every code other than bright
      cyan leaves it as it is. */
  lemma RemoveAllAroundBrightCyan(code: string)
    requires code in ColorCodes && code != BrightCyan
    ensures RemoveAll([ESC, '['] + BrightCyan + "0m", code) == [ESC, '['] + BrightCyan + "0m"
  {
    var head, tail := [ESC, '['], "0m";
    var x := head + BrightCyan + tail;
    CodeShape(code);
    CodeShape(BrightCyan);
    assert x == head + (BrightCyan + tail);
    assert !(code <= x) by { assert code[2] != x[2]; }
    CodesPrefixFree(code, BrightCyan, tail);
    assert RemoveAll(tail + "", code) == tail + RemoveAll("", code) by {
      RemoveAllPlainHead(tail, "", code);
    }
    assert tail + "" == tail;
    RemoveAllAtOtherCode(BrightCyan, tail, code);
    RemoveAllAtOtherCode(head, BrightCyan + tail, code);
  }

  /** Removing bright cyan from ESC '[' bright-cyan "0m" assembles a reset
      code. */
  lemma RemoveBrightCyanMakesReset()
    ensures RemoveAll([ESC, '['] + BrightCyan + "0m", BrightCyan) == Reset
  {
    var head, tail := [ESC, '['], "0m";
    var x := head + BrightCyan + tail;
    CodeShape(BrightCyan);
    assert x == head + (BrightCyan + tail);
    assert !(BrightCyan <= x) by { assert BrightCyan[2] != x[2]; }
    RemoveAllAtOtherCode(head, BrightCyan + tail, BrightCyan);
    RemoveAllAtCode(BrightCyan, tail);
    assert RemoveAll(tail + "", BrightCyan) == tail + RemoveAll("", BrightCyan) by {
      RemoveAllPlainHead(tail, "", BrightCyan);
    }
    assert tail + "" == tail;
    assert head + tail == Reset;
  }

  /** Stripping is not idempotent: removing a later code of the table can
      assemble an earlier one from the characters around it, and that one
      stays in the result. */
  lemma StripNotIdempotent()
    ensures StripColors([ESC, '['] + BrightCyan + "0m") == Reset
    ensures StripColors(StripColors([ESC, '['] + BrightCyan + "0m")) == ""
  {
    var x := [ESC, '['] + BrightCyan + "0m";
    forall j | 0 <= j < |ColorCodes| - 1 ensures RemoveAll(x, ColorCodes[j]) == x {
      BrightCyanOnlyLast(j);
      RemoveAllAroundBrightCyan(ColorCodes[j]);
    }
    StripFromSkip(x, 0, |ColorCodes| - 1);
    RemoveBrightCyanMakesReset();
    assert StripFrom(x, |ColorCodes| - 1) == StripFrom(Reset, |ColorCodes|);
    assert Concat([Reset]) == Reset;
    StripCodesOnly([Reset]);
  }
}
