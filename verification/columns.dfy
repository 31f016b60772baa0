/** Column labels: bijective base-26 numerals over the letters, A = 1 .. Z = 26,
    AA = 27. Lower-case letters read as their upper-case counterparts. */
module Columns {

  predicate IsUpper(ch: char) {
    'A' <= ch <= 'Z'
  }

  predicate IsLower(ch: char) {
    'a' <= ch <= 'z'
  }

  predicate IsLetter(ch: char) {
    IsUpper(ch) || IsLower(ch)
  }

  predicate AllLetters(s: string) {
    forall i :: 0 <= i < |s| ==> IsLetter(s[i])
  }

  predicate AllUpper(s: string) {
    forall i :: 0 <= i < |s| ==> IsUpper(s[i])
  }

  /** The digit value of one letter, ignoring case. */
  function LetterValue(ch: char): (v: nat)
    requires IsLetter(ch)
    ensures 1 <= v <= 26
    ensures IsUpper(ch) ==> ch == Letter(v)
    ensures IsLower(ch) ==> ch as int - 'a' as int == v - 1
  {
    if IsUpper(ch) then ch as int - 'A' as int + 1 else ch as int - 'a' as int + 1
  }

  /** The upper-case letter whose digit value is `v`. */
  function Letter(v: nat): (ch: char)
    requires 1 <= v <= 26
    ensures IsUpper(ch)
  {
    ('A' as int + v - 1) as char
  }

  function ToUpper(ch: char): (u: char)
    ensures IsLetter(ch) ==> IsUpper(u) && LetterValue(u) == LetterValue(ch)
    ensures !IsLower(ch) ==> u == ch
  {
    if IsLower(ch) then (ch as int - 'a' as int + 'A' as int) as char else ch
  }

  function Upper(s: string): (u: string)
    ensures |u| == |s|
    ensures forall i :: 0 <= i < |s| ==> u[i] == ToUpper(s[i])
  {
    if |s| == 0 then [] else Upper(s[..|s| - 1]) + [ToUpper(s[|s| - 1])]
  }

  /** Reads a label left to right: each letter multiplies the value so far by
      26 and adds its own digit value. */
  function Decode(s: string): nat
    requires AllLetters(s)
  {
    if |s| == 0 then 0 else Decode(s[..|s| - 1]) * 26 + LetterValue(s[|s| - 1])
  }

  /** The canonical upper-case label of a column number. */
  function Encode(n: nat): (s: string)
    requires n >= 1
    ensures |s| >= 1
    ensures AllUpper(s)
    decreases n
  {
    if n <= 26 then [Letter(n)] else Encode((n - 1) / 26) + [Letter((n - 1) % 26 + 1)]
  }

  /** Decoding depends only on the letters, not on their case. */
  lemma {:induction false} DecodeIgnoresCase(s: string)
    requires AllLetters(s)
    ensures AllLetters(Upper(s))
    ensures Decode(Upper(s)) == Decode(s)
  {
    if |s| > 0 {
      var p := s[..|s| - 1];
      DecodeIgnoresCase(p);
      assert Upper(s)[..|s| - 1] == Upper(p);
    }
  }

  /** Every column number has a label that decodes back to it. */
  lemma {:induction false} DecodeEncode(n: nat)
    requires n >= 1
    ensures AllLetters(Encode(n))
    ensures Decode(Encode(n)) == n
    decreases n
  {
    var s := Encode(n);
    if n > 26 {
      var q := (n - 1) / 26;
      DecodeEncode(q);
      assert s[..|s| - 1] == Encode(q);
    }
  }

  /** Every label is the canonical label of its own value, up to case. */
  lemma {:induction false} EncodeDecode(s: string)
    requires AllLetters(s) && |s| >= 1
    ensures Decode(s) >= 1
    ensures Encode(Decode(s)) == Upper(s)
  {
    var p := s[..|s| - 1];
    var v := LetterValue(s[|s| - 1]);
    if |p| == 0 {
      assert Decode(s) == v;
      assert Letter(v) == ToUpper(s[0]);
    } else {
      EncodeDecode(p);
      var d := Decode(p);
      assert Decode(s) == d * 26 + v;
      assert (d * 26 + v - 1) / 26 == d;
      assert (d * 26 + v - 1) % 26 + 1 == v;
      assert Letter(v) == ToUpper(s[|s| - 1]);
      assert Upper(s) == Upper(p) + [ToUpper(s[|s| - 1])];
    }
  }
}
