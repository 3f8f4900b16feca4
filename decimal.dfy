/** The decimal text of a frame index, as Python's f-string formatting
    writes a non-negative `int`, and the image file name
    `Frame_<index>.jpg` built from it (scripts/kmeans_frame_selection.py,
    line 155 for the annotation table, line 196 for the saved image). */
module Decimal {

  predicate IsDigit(c: char) {
    '0' <= c <= '9'
  }

  function DigitChar(d: nat): (c: char)
    requires d < 10
    ensures IsDigit(c)
  {
    "0123456789"[d]
  }

  function DigitValue(c: char): (d: nat)
    requires IsDigit(c)
    ensures d < 10
  {
    (c as int) - ('0' as int)
  }

  lemma DigitRoundTrip(d: nat, c: char)
    requires d < 10 && IsDigit(c)
    ensures DigitValue(DigitChar(d)) == d
    ensures DigitChar(DigitValue(c)) == c
  {
  }

  /** Digits only, at least one, and no leading zero unless it is "0". */
  predicate IsCanonical(s: string) {
    |s| >= 1 && (forall k :: 0 <= k < |s| ==> IsDigit(s[k])) && (|s| >= 2 ==> s[0] != '0')
  }

  /** `str(n)` for a non-negative integer. */
  function NatToString(n: nat): (s: string)
    ensures IsCanonical(s)
    ensures |s| == 1 <==> n < 10
    decreases n
  {
    if n < 10 then [DigitChar(n)]
    else NatToString(n / 10) + [DigitChar(n % 10)]
  }

  /** The value a string of digits denotes. */
  function ParseNat(s: string): nat
    requires forall k :: 0 <= k < |s| ==> IsDigit(s[k])
  {
    if s == [] then 0
    else ParseNat(s[..|s| - 1]) * 10 + DigitValue(s[|s| - 1])
  }

  /** Reading back the text of `n` gives `n`. */
  lemma {:induction false} ParseNatToString(n: nat)
    ensures ParseNat(NatToString(n)) == n
    decreases n
  {
    var s := NatToString(n);
    if n < 10 {
      DigitRoundTrip(n, '0');
    } else {
      ParseNatToString(n / 10);
      assert s[..|s| - 1] == NatToString(n / 10);
      DigitRoundTrip(n % 10, '0');
    }
  }

  /** Every canonical digit string is the text of the value it denotes. */
  lemma {:induction false} NatToStringParse(s: string)
    requires IsCanonical(s)
    ensures NatToString(ParseNat(s)) == s
  {
    var last := s[|s| - 1];
    DigitRoundTrip(0, last);
    if |s| >= 2 {
      var init := s[..|s| - 1];
      assert init[0] == s[0];
      NatToStringParse(init);
      var m := ParseNat(init);
      if m == 0 {
        assert false;
      }
      var n := ParseNat(s);
      assert n == m * 10 + DigitValue(last);
      assert n / 10 == m && n % 10 == DigitValue(last);
      assert s == init + [last];
    }
  }

  /** Different indices never share a text. */
  lemma NatToStringInjective(m: nat, n: nat)
    ensures NatToString(m) == NatToString(n) <==> m == n
  {
    ParseNatToString(m);
    ParseNatToString(n);
  }

  /** `f"Frame_{i}.jpg"`. */
  function FrameFileName(i: nat): (name: string)
    ensures |name| >= 11
    ensures name[..6] == "Frame_" && name[|name| - 4..] == ".jpg"
    ensures forall k :: 6 <= k < |name| - 4 ==> IsDigit(name[k])
  {
    "Frame_" + NatToString(i) + ".jpg"
  }

  /** A frame file name has its fixed prefix and suffix, and the index can
      be read back from what lies between them. */
  lemma FrameFileNameParts(i: nat)
    ensures |FrameFileName(i)| >= 11
    ensures FrameFileName(i)[..6] == "Frame_"
    ensures FrameFileName(i)[|FrameFileName(i)| - 4..] == ".jpg"
    ensures IsCanonical(FrameFileName(i)[6..|FrameFileName(i)| - 4])
    ensures ParseNat(FrameFileName(i)[6..|FrameFileName(i)| - 4]) == i
  {
    var name := FrameFileName(i);
    assert name[6..|name| - 4] == NatToString(i);
    ParseNatToString(i);
  }

  /** Two frames get the same file name exactly when they have the same
      index, so no image or table row is written under another's name. */
  lemma FrameFileNameInjective(i: nat, j: nat)
    ensures FrameFileName(i) == FrameFileName(j) <==> i == j
  {
    FrameFileNameParts(i);
    FrameFileNameParts(j);
  }
}
