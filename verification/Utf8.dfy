/** UTF-8 text (RFC 3629) and the two places where the service cuts it. */
module Utf8 {
  import opened Basics

  const MAX_MESSAGE: nat := 256

  /** A continuation byte, `UTF8-tail` in section 4 of RFC 3629. */
  predicate Continuation(b: byte) {
    0x80 <= b < 0xC0
  }

  /** The second byte ranges of `UTF8-3`, which exclude overlong forms and surrogates. */
  predicate ThreeByteLead(b0: byte, b1: byte) {
    || (b0 == 0xE0 && 0xA0 <= b1 <= 0xBF)
    || ((0xE1 <= b0 <= 0xEC || 0xEE <= b0 <= 0xEF) && Continuation(b1))
    || (b0 == 0xED && 0x80 <= b1 <= 0x9F)
  }

  /** The second byte ranges of `UTF8-4`, which end at U+10FFFF. */
  predicate FourByteLead(b0: byte, b1: byte) {
    || (b0 == 0xF0 && 0x90 <= b1 <= 0xBF)
    || (0xF1 <= b0 <= 0xF3 && Continuation(b1))
    || (b0 == 0xF4 && 0x80 <= b1 <= 0x8F)
  }

  /** Bytes in the character that `s` starts with; 0 when it starts with none. */
  function CharLen(s: Bytes): (n: nat)
    ensures n <= |s| && n <= 4
  {
    if |s| >= 1 && s[0] < 0x80 then 1
    else if |s| >= 2 && 0xC2 <= s[0] <= 0xDF && Continuation(s[1]) then 2
    else if |s| >= 3 && ThreeByteLead(s[0], s[1]) && Continuation(s[2]) then 3
    else if |s| >= 4 && FourByteLead(s[0], s[1]) && Continuation(s[2]) && Continuation(s[3]) then 4
    else 0
  }

  /** What `std::str::from_utf8` accepts. */
  predicate Valid(s: Bytes) {
    s == [] || (CharLen(s) > 0 && Valid(s[CharLen(s)..]))
  }

  type Text = s: Bytes | Valid(s) witness []

  /** `str::is_char_boundary`. */
  predicate IsCharBoundary(s: Bytes, i: nat) {
    i == 0 || i == |s| || (i < |s| && !Continuation(s[i]))
  }

  lemma {:induction false} AsciiIsValid(s: Bytes)
    requires forall i | 0 <= i < |s| :: s[i] < 0x80
    ensures Valid(s)
  {
    if s != [] {
      AsciiIsValid(s[1..]);
    }
  }

  /** Every byte of a character after its first is a continuation byte; the first is not. */
  lemma CharShape(s: Bytes)
    requires CharLen(s) > 0
    ensures !Continuation(s[0])
    ensures forall i | 0 < i < CharLen(s) :: Continuation(s[i])
  {
  }

  lemma SlicesShift(s: Bytes, n: nat, i: nat)
    requires n <= i <= |s|
    ensures s[..i][n..] == s[n..][..i - n] && s[n..][i - n..] == s[i..]
  {
    assert forall j | 0 <= j < i - n :: s[..i][n..][j] == s[n..][..i - n][j];
  }

  /** The char boundaries of a text are exactly the cuts that leave a valid suffix... */
  lemma {:induction false} SuffixValidIffBoundary(s: Text, i: nat)
    requires i <= |s|
    ensures Valid(s[i..]) <==> IsCharBoundary(s, i)
    decreases |s|
  {
    if s != [] && i > 0 {
      var n := CharLen(s);
      CharShape(s);
      if i < n {
        assert s[i..][0] == s[i];
      } else {
        SuffixValidIffBoundary(s[n..], i - n);
        SlicesShift(s, n, i);
        assert i == n < |s| ==> s[n..][0] == s[n];
        if i == n < |s| {
          CharShape(s[n..]);
        }
      }
    }
  }

  /** ...and exactly the cuts that leave a valid prefix. */
  lemma {:induction false} PrefixValidIffBoundary(s: Text, i: nat)
    requires i <= |s|
    ensures Valid(s[..i]) <==> IsCharBoundary(s, i)
    decreases |s|
  {
    if s != [] && i > 0 {
      var n := CharLen(s);
      CharShape(s);
      if i < n {
        assert CharLen(s[..i]) == 0;
      } else {
        PrefixValidIffBoundary(s[n..], i - n);
        assert CharLen(s[..i]) == n;
        SlicesShift(s, n, i);
        if i == n < |s| {
          CharShape(s[n..]);
        }
      }
    }
  }

  /** A run of continuation bytes inside a text is at most three long. */
  lemma {:induction false} BoundaryWithinFour(s: Text, i: nat)
    requires i + 3 < |s|
    ensures exists j | i <= j <= i + 3 :: IsCharBoundary(s, j)
    decreases |s|
  {
    var n := CharLen(s);
    CharShape(s);
    if i == 0 {
      assert IsCharBoundary(s, 0);
    } else if i < n {
      SuffixValidIffBoundary(s, n);
      assert i <= n <= i + 3;
    } else if i + 3 < |s| {
      BoundaryWithinFour(s[n..], i - n);
      var j :| i - n <= j <= i - n + 3 && IsCharBoundary(s[n..], j);
      SuffixValidIffBoundary(s[n..], j);
      assert s[n..][j..] == s[n + j..];
      SuffixValidIffBoundary(s, n + j);
      assert IsCharBoundary(s, n + j);
    }
  }

  /** The first boundary at or after `i`. */
  function NextBoundary(s: Text, i: nat): (j: nat)
    requires i <= |s|
    ensures i <= j <= |s| && IsCharBoundary(s, j)
    ensures forall k | i <= k < j :: !IsCharBoundary(s, k)
    decreases |s| - i
  {
    if IsCharBoundary(s, i) then i else NextBoundary(s, i + 1)
  }

  /** The last boundary at or before `i`. */
  function PreviousBoundary(s: Text, i: nat): (j: nat)
    requires i <= |s|
    ensures j <= i && IsCharBoundary(s, j)
    ensures forall k | j < k <= i :: !IsCharBoundary(s, k)
  {
    if IsCharBoundary(s, i) then i else PreviousBoundary(s, i - 1)
  }

  /** The end of `s` from the first boundary that leaves at most `maximum` bytes. */
  function Truncated(s: Text, maximum: nat): Text {
    if |s| <= maximum then s
    else
      var start := NextBoundary(s, |s| - maximum);
      SuffixValidIffBoundary(s, start);
      s[start..]
  }

  /** The start of `s` up to the last boundary within the message cap. */
  function Bounded(s: Text): Text {
    if |s| <= MAX_MESSAGE then s
    else
      var end := PreviousBoundary(s, MAX_MESSAGE);
      PrefixValidIffBoundary(s, end);
      s[..end]
  }

  /** Truncation keeps the longest suffix that is text and fits, within 3 bytes of the limit. */
  lemma TruncatedIsLongestSuffix(s: Text, maximum: nat)
    ensures |Truncated(s, maximum)| <= |s|
    ensures var start := |s| - |Truncated(s, maximum)|;
            && Truncated(s, maximum) == s[start..]
            && |s| - start <= maximum
            && forall i | 0 <= i < start && |s| - i <= maximum :: !Valid(s[i..])
    ensures |Truncated(s, maximum)| >= Min(|s|, maximum - 3)
  {
    if |s| > maximum {
      var first := |s| - maximum;
      forall i | first <= i <= |s|
        ensures Valid(s[i..]) <==> IsCharBoundary(s, i)
      {
        SuffixValidIffBoundary(s, i);
      }
      if first + 3 < |s| {
        BoundaryWithinFour(s, first);
      }
    }
  }

  /** No valid suffix of `s` within the limit is longer than `t`. */
  ghost predicate IsLongestSuffix(t: Text, s: Text, maximum: nat) {
    && |t| <= |s| && t == s[|s| - |t|..] && |t| <= maximum
    && forall i | 0 <= i < |s| - |t| && |s| - i <= maximum :: !Valid(s[i..])
  }

  lemma TruncatedIs(s: Text, maximum: nat)
    ensures IsLongestSuffix(Truncated(s, maximum), s, maximum)
  {
    TruncatedIsLongestSuffix(s, maximum);
  }

  /** Bounding keeps the longest prefix that is text and fits, within 3 bytes of the cap. */
  lemma BoundedIsLongestPrefix(s: Text)
    ensures |Bounded(s)| <= MAX_MESSAGE && Bounded(s) <= s
    ensures forall i | |Bounded(s)| < i <= MAX_MESSAGE && i <= |s| :: !Valid(s[..i])
    ensures |Bounded(s)| >= Min(|s|, MAX_MESSAGE - 3)
  {
    if |s| > MAX_MESSAGE {
      forall i | 0 <= i <= |s|
        ensures Valid(s[..i]) <==> IsCharBoundary(s, i)
      {
        PrefixValidIffBoundary(s, i);
      }
      BoundaryWithinFour(s, MAX_MESSAGE - 3);
    }
  }

  /** Keeps the end of a pane's text. */
  method TruncateUtf8(value: Text, maximum: nat) returns (r: Text)
    ensures r == Truncated(value, maximum)
  {
    if |value| <= maximum {
      return value;
    }
    var start := |value| - maximum;
    while !IsCharBoundary(value, start)
      invariant |value| - maximum <= start <= |value|
      invariant NextBoundary(value, start) == NextBoundary(value, |value| - maximum)
      decreases |value| - start
    {
      start := start + 1;
    }
    SuffixValidIffBoundary(value, start);
    r := value[start..];
  }

  /** Caps the description in an error response. */
  method BoundedMessage(message: Text) returns (r: Text)
    ensures r == Bounded(message)
  {
    if |message| <= MAX_MESSAGE {
      return message;
    }
    var end := MAX_MESSAGE;
    while !IsCharBoundary(message, end)
      invariant 0 <= end <= MAX_MESSAGE
      invariant PreviousBoundary(message, end) == PreviousBoundary(message, MAX_MESSAGE)
      decreases end
    {
      end := end - 1;
    }
    PrefixValidIffBoundary(message, end);
    r := message[..end];
  }
}
