/** What stripping, parsing and lowering do to a text, character by character. */
module TextFacts {
  import opened Outcomes
  import opened Text

  // ----- What is stripped -----------------------------------------------------------------------

  predicate Blank(s: string) { forall c :: c in s ==> IsSpace(c) }

  lemma {:induction false} LeftIsBlank(s: string) returns (front: string)
    ensures s == front + StripLeft(s) && Blank(front)
    decreases |s|
  {
    front := "";
    if s != "" && IsSpace(s[0]) {
      var rest := LeftIsBlank(s[1..]);
      front := [s[0]] + rest;
    }
  }

  lemma {:induction false} RightIsBlank(s: string) returns (back: string)
    ensures s == StripRight(s) + back && Blank(back)
    decreases |s|
  {
    back := "";
    if s != "" && IsSpace(s[|s| - 1]) {
      var rest := RightIsBlank(s[..|s| - 1]);
      back := rest + [s[|s| - 1]];
    }
  }

  /** Stripping takes white space off both ends and nothing else, until none is left there. */
  lemma StripIsExact(s: string) returns (front: string, back: string)
    ensures s == front + Strip(s) + back && Blank(front) && Blank(back)
    ensures Strip(s) != "" ==> !IsSpace(Strip(s)[0]) && !IsSpace(Strip(s)[|Strip(s)| - 1])
  {
    front := LeftIsBlank(s);
    back := RightIsBlank(StripLeft(s));
    StripEnds(s);
  }

  /** `int(text)` takes a sign, leading zeros and single underscores between digits. */
  lemma ParseTakes()
    ensures ParseInt("+7") == Some(7) && ParseInt("007") == Some(7) && ParseInt("1_0") == Some(10)
  {
    StripKeeps("+7");
    StripKeeps("007");
    StripKeeps("1_0");
    assert "+7"[1..] == "7" && "7"[1..] == "";
    assert "007"[1..] == "07" && "07"[1..] == "7";
    assert "1_0"[1..] == "_0" && "_0"[1..] == "0" && "0"[1..] == "";
  }

  /** It refuses a doubled, leading or trailing underscore, a lone sign and the empty text. */
  lemma ParseRefuses()
    ensures ParseInt("1__0") == None && ParseInt("_1") == None && ParseInt("1_") == None
    ensures ParseInt("-") == None && ParseInt("") == None
  {
    StripKeeps("1__0");
    StripKeeps("_1");
    StripKeeps("1_");
    StripKeeps("-");
    assert "1__0"[1..] == "__0" && "__0"[1..] == "_0";
    assert "1_"[1..] == "_" && "_"[1..] == "" && "-"[1..] == "";
  }

  /** The white space characters, one by one. */
  const SPACES := [
    '\t', '\n', '\U{000B}', '\U{000C}', '\r', '\U{001C}', '\U{001D}', '\U{001E}', '\U{001F}', ' ',
    '\U{0085}', '\U{00A0}', '\U{1680}', '\U{2000}', '\U{2001}', '\U{2002}', '\U{2003}', '\U{2004}', '\U{2005}',
    '\U{2006}', '\U{2007}', '\U{2008}', '\U{2009}', '\U{200A}', '\U{2028}', '\U{2029}', '\U{202F}', '\U{205F}',
    '\U{3000}'
  ]

  lemma SpacesListed(c: char)
    ensures IsSpace(c) <==> c in SPACES
  {}

  const UPPER := "ABCDEFGHIJKLMNOPQRSTUVWXYZ"

  const LOWER := "abcdefghijklmnopqrstuvwxyz"

  lemma LowerCharAt(k: nat)
    requires k < 26
    ensures LowerChar(UPPER[k]) == LOWER[k]
  {}

  lemma LowerCharKeeps(c: char)
    requires c !in UPPER
    ensures LowerChar(c) == c
  {}

  /** Lowering replaces each capital letter by its small one and keeps everything else. */
  lemma LowerIsExact(s: string)
    ensures |Lower(s)| == |s|
    ensures forall i, k :: 0 <= i < |s| && 0 <= k < 26 && s[i] == UPPER[k] ==> Lower(s)[i] == LOWER[k]
    ensures forall i :: 0 <= i < |s| && s[i] !in UPPER ==> Lower(s)[i] == s[i]
  {
    forall i, k | 0 <= i < |s| && 0 <= k < 26 && s[i] == UPPER[k] ensures Lower(s)[i] == LOWER[k] { LowerCharAt(k); }
    forall i | 0 <= i < |s| && s[i] !in UPPER ensures Lower(s)[i] == s[i] { LowerCharKeeps(s[i]); }
  }
}
