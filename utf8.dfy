/** Well-formed UTF-8 (Go's utf8.Valid): the byte sequences of table 3-7 of
    the Unicode standard, which RFC 3629 also gives. Overlong forms, surrogates
    and values above U+10FFFF are ill-formed. */
module Utf8 {
  import opened Wire

  predicate IsContinuation(b: byte)
  {
    0x80 <= b <= 0xBF
  }

  /** The length of the well-formed encoded character that s starts with,
      or 0 when s does not start with one. */
  function FirstCharLength(s: Bytes): (n: nat)
    requires s != []
    ensures n <= 4 && n <= |s|
  {
    var b0 := s[0];
    if b0 <= 0x7F then 1
    else if 0xC2 <= b0 <= 0xDF then
      (if |s| >= 2 && IsContinuation(s[1]) then 2 else 0)
    else if 0xE0 <= b0 <= 0xEF then
      var lo := if b0 == 0xE0 then 0xA0 else 0x80;
      var hi := if b0 == 0xED then 0x9F else 0xBF;
      (if |s| >= 3 && lo <= s[1] <= hi && IsContinuation(s[2]) then 3 else 0)
    else if 0xF0 <= b0 <= 0xF4 then
      var lo := if b0 == 0xF0 then 0x90 else 0x80;
      var hi := if b0 == 0xF4 then 0x8F else 0xBF;
      (if |s| >= 4 && lo <= s[1] <= hi && IsContinuation(s[2]) && IsContinuation(s[3]) then 4 else 0)
    else 0
  }

  /** utf8.Valid: s is a sequence of well-formed characters. */
  predicate ValidUtf8(s: Bytes)
    decreases |s|
  {
    s == [] || (FirstCharLength(s) > 0 && ValidUtf8(s[FirstCharLength(s)..]))
  }

  /** ASCII text is well-formed. */
  lemma {:induction false} AsciiIsValid(s: Bytes)
    requires forall i :: 0 <= i < |s| ==> s[i] <= 0x7F
    ensures ValidUtf8(s)
    decreases |s|
  {
    if s != [] {
      AsciiIsValid(s[1..]);
    }
  }

  /** A character that a sequence starts with is read the same whatever
      follows the sequence. */
  lemma FirstCharOfPrefix(s: Bytes, t: Bytes)
    requires s != [] && FirstCharLength(s) > 0
    ensures FirstCharLength(s + t) == FirstCharLength(s)
  {
    var n := FirstCharLength(s);
    assert forall i :: 0 <= i < n ==> (s + t)[i] == s[i];
  }

  /** Well-formed text never opens with a continuation byte or with a byte
      no character can start with (0xC0, 0xC1, 0xF5 and above). */
  lemma ValidLeadByte(s: Bytes)
    requires ValidUtf8(s) && s != []
    ensures s[0] <= 0x7F || 0xC2 <= s[0] <= 0xF4
  {
  }

  /** Well-formed text never ends inside a character: its last byte is ASCII
      or a continuation byte. */
  lemma {:induction false} ValidEndsOnBoundary(s: Bytes)
    requires ValidUtf8(s) && s != []
    ensures s[|s| - 1] <= 0x7F || IsContinuation(s[|s| - 1])
    decreases |s|
  {
    var n := FirstCharLength(s);
    if n < |s| {
      ValidEndsOnBoundary(s[n..]);
      assert s[n..][|s| - n - 1] == s[|s| - 1];
    }
  }

  /** A well-formed character followed by well-formed text is well-formed. */
  lemma ValidStep(s: Bytes)
    requires s != [] && FirstCharLength(s) > 0 && ValidUtf8(s[FirstCharLength(s)..])
    ensures ValidUtf8(s)
  {
  }

  /** The first character of a well-formed a, followed by the rest of a and
      then b, is well-formed when the rest of a followed by b is. */
  lemma ValidPrefixStep(a: Bytes, b: Bytes)
    requires a != [] && FirstCharLength(a) > 0 && ValidUtf8(a[FirstCharLength(a)..] + b)
    ensures ValidUtf8(a + b)
  {
    var n := FirstCharLength(a);
    FirstCharOfPrefix(a, b);
    assert (a + b)[n..] == a[n..] + b;
    ValidStep(a + b);
  }

  /** Well-formedness is preserved by concatenation: a character never
      straddles the boundary of a well-formed prefix. */
  lemma {:induction false} ValidConcat(a: Bytes, b: Bytes)
    requires ValidUtf8(a) && ValidUtf8(b)
    ensures ValidUtf8(a + b)
    decreases |a|
  {
    if a == [] {
      assert a + b == b;
    } else {
      var n := FirstCharLength(a);
      ValidConcat(a[n..], b);
      ValidPrefixStep(a, b);
    }
  }
}
