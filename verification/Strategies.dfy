/** Replacement texts for a masked value.  Digits are the ASCII ones; which other
    characters count as letters is a parameter. */
module Strategies {

  const MASK_CHAR: char := '*'
  const NUMERIC_VISIBLE_EDGE: nat := 2
  const NUMERIC_MIN_DIGITS: nat := 4

  predicate IsDigit(c: char) { '0' <= c <= '9' }

  /** Every letter or digit becomes the mask character. */
  function MaskAllAlnum(alnum: char -> bool, value: string): (r: string)
    ensures |r| == |value|
    ensures forall i :: 0 <= i < |value| ==> r[i] == if alnum(value[i]) then MASK_CHAR else value[i]
  {
    seq(|value|, i requires 0 <= i < |value| => if alnum(value[i]) then MASK_CHAR else value[i])
  }

  function MaskDigits(value: string): string {
    MaskAllAlnum(IsDigit, value)
  }

  function Digits(s: string): (r: string)
    ensures forall c :: c in r ==> IsDigit(c)
    ensures |r| <= |s|
  {
    if s == "" then ""
    else Digits(s[..|s| - 1]) + if IsDigit(s[|s| - 1]) then [s[|s| - 1]] else ""
  }

  /** Whether the digit of the given index is blotted out, among `total`. */
  predicate Hidden(index: int, total: int) {
    total <= NUMERIC_MIN_DIGITS || (NUMERIC_VISIBLE_EDGE <= index < total - NUMERIC_VISIBLE_EDGE)
  }

  /** What becomes of the character at position `i`. */
  function EdgeChar(value: string, i: nat): char
    requires i < |value|
  {
    if IsDigit(value[i]) && Hidden(|Digits(value[..i])|, |Digits(value)|) then MASK_CHAR else value[i]
  }

  lemma {:induction false} DigitsOfPrefix(s: string, i: nat)
    requires i <= |s|
    ensures Digits(s[..i]) <= Digits(s)
    ensures i < |s| && IsDigit(s[i]) ==> |Digits(s[..i])| < |Digits(s)| && Digits(s)[|Digits(s[..i])|] == s[i]
  {
    if i == |s| {
      assert s[..i] == s;
    } else {
      var front := s[..|s| - 1];
      DigitsOfPrefix(front, i);
      assert front[..i] == s[..i];
    }
  }

  lemma DigitsNext(s: string, n: nat)
    requires n < |s|
    ensures Digits(s[..n + 1]) == Digits(s[..n]) + if IsDigit(s[n]) then [s[n]] else ""
  {
    assert s[..n + 1][..n] == s[..n];
  }

  /** The part of the value covered by `masked` is masked as it should be. */
  ghost predicate EdgeMaskedSoFar(value: string, masked: string) {
    |masked| <= |value| && forall i :: 0 <= i < |masked| ==> masked[i] == EdgeChar(value, i)
  }

  ghost predicate EdgeMasked(value: string, masked: string) {
    |masked| == |value| && EdgeMaskedSoFar(value, masked)
  }

  lemma EdgeMaskedNext(value: string, masked: string, c: char)
    requires EdgeMaskedSoFar(value, masked) && |masked| < |value| && c == EdgeChar(value, |masked|)
    ensures EdgeMaskedSoFar(value, masked + [c])
  {
  }

  method MaskNumericEdges(value: string) returns (masked: string)
    ensures EdgeMasked(value, masked)
  {
    var digits := Digits(value);
    if |digits| <= NUMERIC_MIN_DIGITS {
      return MaskDigits(value);
    }
    masked := "";
    var digitIndex, total := 0, |digits|;
    for n := 0 to |value|
      invariant |masked| == n && digitIndex == |Digits(value[..n])|
      invariant EdgeMaskedSoFar(value, masked)
    {
      var ch := value[n];
      ghost var before := masked;
      DigitsNext(value, n);
      DigitsOfPrefix(value, n);
      if IsDigit(ch) {
        if digitIndex < NUMERIC_VISIBLE_EDGE || digitIndex >= total - NUMERIC_VISIBLE_EDGE {
          masked := masked + [digits[digitIndex]];
        } else {
          masked := masked + [MASK_CHAR];
        }
        digitIndex := digitIndex + 1;
      } else {
        masked := masked + [ch];
      }
      assert masked == before + [masked[n]];
      EdgeMaskedNext(value, before, masked[n]);
    }
  }

  /** The digits left visible after the first `r` of `d`. */
  function Visible(d: string, r: nat): string
    requires r <= |d|
  {
    if |d| <= NUMERIC_MIN_DIGITS then ""
    else if r <= 2 then d[..r]
    else if r <= |d| - 2 then d[..2]
    else d[..2] + d[|d| - 2..r]
  }

  lemma VisibleNext(d: string, r: nat)
    requires r < |d|
    ensures Visible(d, r + 1) == Visible(d, r) + if Hidden(r, |d|) then "" else [d[r]]
  {
  }

  lemma VisibleStep(value: string, masked: string, n: nat)
    requires n < |value| == |masked| && masked[n] == EdgeChar(value, n)
    requires |Digits(value[..n])| <= |Digits(value)| && |Digits(value[..n + 1])| <= |Digits(value)|
    requires Digits(masked[..n]) == Visible(Digits(value), |Digits(value[..n])|)
    ensures Digits(masked[..n + 1]) == Visible(Digits(value), |Digits(value[..n + 1])|)
  {
    var d, r := Digits(value), |Digits(value[..n])|;
    DigitsNext(masked, n);
    DigitsNext(value, n);
    if IsDigit(value[n]) {
      DigitsOfPrefix(value, n);
      VisibleNext(d, r);
    }
  }

  lemma {:induction false} VisibleDigits(value: string, masked: string, n: nat)
    requires EdgeMasked(value, masked) && n <= |value|
    ensures |Digits(value[..n])| <= |Digits(value)|
    ensures Digits(masked[..n]) == Visible(Digits(value), |Digits(value[..n])|)
  {
    DigitsOfPrefix(value, n);
    if n == 0 {
      assert masked[..0] == "" && value[..0] == "" && Digits("") == "";
      assert Visible(Digits(value), 0) == "";
    } else {
      var m := n - 1;
      VisibleDigits(value, masked, m);
      assert masked[m] == EdgeChar(value, m);
      VisibleStep(value, masked, m);
    }
  }

  /** The masked number shows its first two and last two digits, in order, and no
      other; a number of at most four digits shows none.  Every digit not shown is an
      asterisk, and everything between the digits stays. */
  lemma EdgesAreWhatIsVisible(value: string, masked: string)
    requires EdgeMasked(value, masked)
    ensures
      var d := Digits(value);
      Digits(masked) == if |d| <= 4 then "" else d[..2] + d[|d| - 2..]
    ensures |masked| == |value|
    ensures forall i :: 0 <= i < |value| ==>
              if IsDigit(value[i]) then masked[i] == value[i] || masked[i] == '*' else masked[i] == value[i]
  {
    VisibleDigits(value, masked, |value|);
    assert masked[..|value|] == masked;
    assert value[..|value|] == value;
  }

  // ----- tokens

  predicate IsHex(c: char) { '0' <= c <= '9' || 'a' <= c <= 'f' }

  predicate IsTypeChar(c: char) { 'A' <= c <= 'Z' || c == '_' }

  /** The placeholder of the tokenizing strategy; `hex` is the random part. */
  function Token(typeName: string, hex: string): string {
    "<TOKEN:" + typeName + ":" + hex + ">"
  }

  /** An opening bracket at the start and nowhere else, a closing one at the end and
      nowhere else. */
  ghost predicate TokenShaped(t: string) {
    && |t| >= 2 && t[0] == '<' && t[|t| - 1] == '>'
    && (forall i :: 1 <= i < |t| ==> t[i] != '<')
    && (forall i :: 0 <= i < |t| - 1 ==> t[i] != '>')
  }

  lemma TokensAreTokenShaped(typeName: string, hex: string)
    requires forall c :: c in typeName ==> IsTypeChar(c)
    requires forall c :: c in hex ==> IsHex(c)
    ensures TokenShaped(Token(typeName, hex))
  {
    var t := Token(typeName, hex);
    var p := "<TOKEN:";
    forall i | 1 <= i < |t| - 1
      ensures t[i] != '<' && t[i] != '>'
    {
      if |p| <= i < |p| + |typeName| {
        assert t[i] == typeName[i - |p|] && typeName[i - |p|] in typeName;
      } else if i > |p| + |typeName| {
        assert t[i] == hex[i - |p| - |typeName| - 1] && hex[i - |p| - |typeName| - 1] in hex;
      }
    }
  }

  /** A token begins as announced, and type and random part can be read off it. */
  lemma TokensAreReadable(t1: string, h1: string, t2: string, h2: string)
    requires (forall c :: c in t1 ==> IsTypeChar(c)) && forall c :: c in t2 ==> IsTypeChar(c)
    ensures "<TOKEN:" + t1 + ":" <= Token(t1, h1)
    ensures Token(t1, h1) == Token(t2, h2) <==> t1 == t2 && h1 == h2
  {
    if Token(t1, h1) == Token(t2, h2) {
      var a, b := Token(t1, h1)[7..], Token(t2, h2)[7..];
      assert a == t1 + ":" + (h1 + ">") && b == t2 + ":" + (h2 + ">");
      assert !IsTypeChar(':');
      SameUpToColon(t1, h1 + ">", t2, h2 + ">");
      assert (h1 + ">")[..|h1|] == h1 && (h2 + ">")[..|h2|] == h2;
    }
  }

  lemma SameUpToColon(s1: string, r1: string, s2: string, r2: string)
    requires ':' !in s1 && ':' !in s2
    requires s1 + ":" + r1 == s2 + ":" + r2
    ensures s1 == s2 && r1 == r2
  {
    var a, b := s1 + ":" + r1, s2 + ":" + r2;
    assert a[|s1|] == ':' && b[|s2|] == ':';
    assert |s1| == |s2|;
    assert a[..|s1|] == s1 && b[..|s2|] == s2;
    assert a[|s1| + 1..] == r1 && b[|s2| + 1..] == r2;
  }
}
