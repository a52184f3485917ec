/**
 * Python's two notions of ASCII whitespace and the stripping built on them:
 * str.strip(), which readMessage applies to a decoded line, and the skipping
 * of blanks that int() does around a number.  Only the ASCII range is
 * modelled: every text that reaches the decoder has been through an ASCII
 * decode.
 */
module PyText {

  /**
   * Which characters count as whitespace.  StrSpaces is str.isspace() on
   * ASCII: TAB, LF, VT, FF, CR, the separators 0x1C-0x1F and SPACE.
   * IntSpaces is the C-locale set int() skips on an ASCII text: the same
   * without the four separators.
   */
  datatype Spaces = StrSpaces | IntSpaces

  predicate IsSpace(c: char, sp: Spaces) {
    9 <= c as int <= 13 || c == ' ' || (sp == StrSpaces && 28 <= c as int <= 31)
  }

  /** Removal of leading whitespace; str.lstrip() for StrSpaces. */
  function LStrip(s: string, sp: Spaces): (t: string)
    ensures |t| <= |s| && t == s[|s| - |t|..]
    ensures t != [] ==> !IsSpace(t[0], sp)
    ensures forall k :: 0 <= k < |s| - |t| ==> IsSpace(s[k], sp)
  {
    if s != [] && IsSpace(s[0], sp) then LStrip(s[1..], sp) else s
  }

  /** Removal of trailing whitespace; str.rstrip() for StrSpaces. */
  function RStrip(s: string, sp: Spaces): (t: string)
    ensures |t| <= |s| && t == s[..|t|]
    ensures t != [] ==> !IsSpace(t[|t| - 1], sp)
    ensures forall k :: |t| <= k < |s| ==> IsSpace(s[k], sp)
  {
    if s != [] && IsSpace(s[|s| - 1], sp) then RStrip(s[..|s| - 1], sp) else s
  }

  /** Both ends; str.strip() without arguments for StrSpaces. */
  function Strip(s: string, sp: Spaces): (t: string)
    ensures |t| <= |s|
    ensures t != [] ==> !IsSpace(t[0], sp) && !IsSpace(t[|t| - 1], sp)
  {
    RStrip(LStrip(s, sp), sp)
  }

  /**
   * What str.strip() keeps: the characters of s from where its leading
   * whitespace ends, in order, and nothing outside them but whitespace.
   */
  lemma {:induction false} StripIsMiddle(s: string, sp: Spaces)
    ensures |s| - |LStrip(s, sp)| + |Strip(s, sp)| <= |s|
    ensures forall j :: 0 <= j < |Strip(s, sp)| ==> Strip(s, sp)[j] == s[|s| - |LStrip(s, sp)| + j]
    ensures forall k :: 0 <= k < |s| - |LStrip(s, sp)| ==> IsSpace(s[k], sp)
    ensures forall k :: |s| - |LStrip(s, sp)| + |Strip(s, sp)| <= k < |s| ==> IsSpace(s[k], sp)
  {
    StripChars(s, sp);
    StripDropsTail(s, sp);
  }

  lemma {:induction false} StripChars(s: string, sp: Spaces)
    ensures |s| - |LStrip(s, sp)| + |Strip(s, sp)| <= |s|
    ensures forall j :: 0 <= j < |Strip(s, sp)| ==> Strip(s, sp)[j] == s[|s| - |LStrip(s, sp)| + j]
  {
  }

  lemma {:induction false} StripDropsTail(s: string, sp: Spaces)
    ensures forall k :: |s| - |LStrip(s, sp)| + |Strip(s, sp)| <= k < |s| ==> IsSpace(s[k], sp)
  {
    var l := LStrip(s, sp);
    var a := |s| - |l|;
    forall k | a + |Strip(s, sp)| <= k < |s|
      ensures IsSpace(s[k], sp)
    {
      assert s[k] == l[k - a];
    }
  }

  /** A text whose two ends are not whitespace is left as it is. */
  lemma {:induction false} StripKeeps(s: string, sp: Spaces)
    requires s != [] && !IsSpace(s[0], sp) && !IsSpace(s[|s| - 1], sp)
    ensures Strip(s, sp) == s
  {
  }

  /** Stripping twice is stripping once. */
  lemma {:induction false} StripIdempotent(s: string, sp: Spaces)
    ensures Strip(Strip(s, sp), sp) == Strip(s, sp)
  {
    if Strip(s, sp) != [] {
      StripKeeps(Strip(s, sp), sp);
    }
  }

  /** Trailing whitespace after a text with non-space ends is removed, and nothing else. */
  lemma {:induction false} StripTrailing(s: string, ws: string, sp: Spaces)
    requires s != [] && !IsSpace(s[0], sp) && !IsSpace(s[|s| - 1], sp)
    requires forall k :: 0 <= k < |ws| ==> IsSpace(ws[k], sp)
    ensures Strip(s + ws, sp) == s
    decreases |ws|
  {
    if ws == [] {
      assert s + ws == s;
      StripKeeps(s, sp);
    } else {
      var shorter := ws[..|ws| - 1];
      assert (s + ws)[..|s + ws| - 1] == s + shorter;
      StripTrailing(s, shorter, sp);
      assert LStrip(s + ws, sp) == s + ws;
      assert LStrip(s + shorter, sp) == s + shorter;
    }
  }

  /** A text that starts with a non-space character keeps it at the front of its stripped form. */
  lemma {:induction false} StripKeepsHead(u: string, sp: Spaces)
    requires u != [] && !IsSpace(u[0], sp)
    ensures Strip(u, sp) != [] && Strip(u, sp)[0] == u[0]
  {
  }

  /** A leading whitespace character makes no difference to what str.lstrip() returns. */
  lemma {:induction false} LStripSkipsHead(c: char, t: string, sp: Spaces)
    requires IsSpace(c, sp)
    ensures LStrip([c] + t, sp) == LStrip(t, sp)
  {
    assert ([c] + t)[1..] == t;
  }

  /**
   * An ASCII separator (0x1C-0x1F) leading any text: str.strip() drops it
   * and strips the rest as if it were not there, while the stripping of
   * int() keeps it as the first character.
   */
  lemma {:induction false} SeparatorStripped(c: char, t: string)
    requires 0x1C <= c as int <= 0x1F
    ensures Strip([c] + t, StrSpaces) == Strip(t, StrSpaces)
    ensures Strip([c] + t, IntSpaces) != [] && Strip([c] + t, IntSpaces)[0] == c
  {
    LStripSkipsHead(c, t, StrSpaces);
    StripKeepsHead([c] + t, IntSpaces);
  }

  /** The separator case for a text of one non-space character. */
  lemma {:induction false} SeparatorBeforeChar(c: char, d: char)
    requires 0x1C <= c as int <= 0x1F && !IsSpace(d, StrSpaces)
    ensures Strip([c, d], StrSpaces) == [d]
  {
    assert LStrip([c, d], StrSpaces) == LStrip([d], StrSpaces) by {
      assert [c, d][1..] == [d];
    }
    StripKeeps([d], StrSpaces);
  }
}
