/** The string operations the URL list and the OCR filter are built from:
    Python's str.strip(), str.split('\n') and filtering by str.isdigit. */
module Text {

  /** Python's str.isspace on a single character: the characters that
      str.strip() with no argument removes. */
  predicate IsSpace(c: char)
  {
    || c == ' '
    || ('\t' <= c <= '\r')
    || ('\U{1C}' <= c <= '\U{1F}')
    || c == '\U{85}' || c == '\U{A0}' || c == '\U{1680}'
    || ('\U{2000}' <= c <= '\U{200A}')
    || c == '\U{2028}' || c == '\U{2029}' || c == '\U{202F}'
    || c == '\U{205F}' || c == '\U{3000}'
  }

  /** A decimal digit; see README for the Unicode digits this leaves out. */
  predicate IsDigit(c: char)
  {
    '0' <= c <= '9'
  }

  ghost predicate AllSpace(s: string)
  {
    forall i :: 0 <= i < |s| ==> IsSpace(s[i])
  }

  ghost predicate AllDigits(s: string)
  {
    forall i :: 0 <= i < |s| ==> IsDigit(s[i])
  }

  /** Neither end of s is whitespace. */
  ghost predicate IsTrimmed(s: string)
  {
    s == [] || (!IsSpace(s[0]) && !IsSpace(s[|s| - 1]))
  }

  predicate StartsWith(s: string, prefix: string)
  {
    |prefix| <= |s| && s[..|prefix|] == prefix
  }

  /** The first position at or after i that does not hold whitespace
      (|s| when there is none). */
  function SkipSpace(s: string, i: nat): (k: nat)
    requires i <= |s|
    ensures i <= k <= |s|
    ensures forall j :: i <= j < k ==> IsSpace(s[j])
    ensures k == |s| || !IsSpace(s[k])
    decreases |s| - i
  {
    if i < |s| && IsSpace(s[i]) then SkipSpace(s, i + 1) else i
  }

  /** The end of s[lo..hi] once its trailing whitespace is dropped. */
  function SkipSpaceBack(s: string, lo: nat, hi: nat): (k: nat)
    requires lo <= hi <= |s|
    ensures lo <= k <= hi
    ensures forall j :: k <= j < hi ==> IsSpace(s[j])
    ensures k == lo || !IsSpace(s[k - 1])
    decreases hi
  {
    if lo < hi && IsSpace(s[hi - 1]) then SkipSpaceBack(s, lo, hi - 1) else hi
  }

  /** Python's str.strip(): the slice of s that starts at its first
      non-whitespace character and ends after its last one, so that neither
      end is whitespace and everything cut away is; it is empty exactly when
      s is all whitespace. */
  function Strip(s: string): (r: string)
    ensures IsTrimmed(r)
    ensures r == [] <==> AllSpace(s)
    ensures var lo := SkipSpace(s, 0);
            && lo + |r| <= |s| && r == s[lo..lo + |r|]
            && (forall i :: 0 <= i < lo ==> IsSpace(s[i]))
            && (forall i :: lo + |r| <= i < |s| ==> IsSpace(s[i]))
  {
    var lo := SkipSpace(s, 0);
    s[lo..SkipSpaceBack(s, lo, |s|)]
  }

  /** Python's s.split('\n'): the pieces between newlines, always at least one. */
  function SplitLines(s: string): (lines: seq<string>)
    ensures |lines| >= 1
    ensures forall k :: 0 <= k < |lines| ==> '\n' !in lines[k]
    decreases |s|
  {
    if s == [] then [""]
    else
      var rest := SplitLines(s[1..]);
      if s[0] == '\n' then [""] + rest
      else [[s[0]] + rest[0]] + rest[1..]
  }

  /** '\n'.join(lines), the inverse of SplitLines. */
  function JoinLines(lines: seq<string>): string
    requires |lines| >= 1
  {
    if |lines| == 1 then lines[0] else lines[0] + "\n" + JoinLines(lines[1..])
  }

  lemma {:induction false} JoinSplitLines(s: string)
    ensures JoinLines(SplitLines(s)) == s
    decreases |s|
  {
    if s != [] {
      var rest := SplitLines(s[1..]);
      JoinSplitLines(s[1..]);
      if s[0] == '\n' {
        assert SplitLines(s)[1..] == rest;
      } else {
        var lines := SplitLines(s);
        assert lines[1..] == rest[1..];
        if |rest| == 1 {
          assert JoinLines(lines) == [s[0]] + rest[0];
        } else {
          assert JoinLines(lines) == [s[0]] + (rest[0] + "\n" + JoinLines(rest[1..]));
        }
      }
    }
  }

  /** Splitting a line that holds no newline, followed by a newline and more
      text, puts that line first. */
  lemma {:induction false} SplitLinesFirst(a: string, b: string)
    requires '\n' !in a
    ensures SplitLines(a + "\n" + b) == [a] + SplitLines(b)
    decreases |a|
  {
    if a == [] {
      assert a + "\n" + b == "\n" + b;
      assert ("\n" + b)[1..] == b;
    } else {
      assert (a + "\n" + b)[1..] == a[1..] + "\n" + b;
      SplitLinesFirst(a[1..], b);
      assert [a[0]] + a[1..] == a;
    }
  }

  lemma {:induction false} SplitLinesSingle(a: string)
    requires '\n' !in a
    ensures SplitLines(a) == [a]
    decreases |a|
  {
    if a != [] {
      SplitLinesSingle(a[1..]);
      assert [a[0]] + a[1..] == a;
    }
  }

  /** The other round trip: newline-free lines survive joining and splitting. */
  lemma {:induction false} SplitJoinLines(lines: seq<string>)
    requires |lines| >= 1
    requires forall k :: 0 <= k < |lines| ==> '\n' !in lines[k]
    ensures SplitLines(JoinLines(lines)) == lines
    decreases |lines|
  {
    if |lines| == 1 {
      SplitLinesSingle(lines[0]);
    } else {
      SplitJoinLines(lines[1..]);
      SplitLinesFirst(lines[0], JoinLines(lines[1..]));
      assert [lines[0]] + lines[1..] == lines;
    }
  }

  /** Joined lines are all whitespace exactly when every line is. */
  lemma {:induction false} JoinLinesAllSpace(lines: seq<string>)
    requires |lines| >= 1
    ensures AllSpace(JoinLines(lines)) <==> forall k :: 0 <= k < |lines| ==> AllSpace(lines[k])
    decreases |lines|
  {
    if |lines| > 1 {
      JoinLinesAllSpace(lines[1..]);
      var a, b := lines[0], JoinLines(lines[1..]);
      var j := a + "\n" + b;
      assert forall i :: 0 <= i < |a| ==> j[i] == a[i];
      assert forall i :: 0 <= i < |b| ==> j[|a| + 1 + i] == b[i];
      assert j[|a|] == '\n';
      if AllSpace(a) && AllSpace(b) {
        forall i | 0 <= i < |j| ensures IsSpace(j[i]) {
          if i < |a| {
          } else if i > |a| {
            assert j[i] == b[i - |a| - 1];
          }
        }
      }
      forall k | 1 <= k < |lines| ensures lines[k] == lines[1..][k - 1] { }
    }
  }

  /** "".join(filter(str.isdigit, text)): the digits of text, in order. */
  function Digits(text: string): (d: string)
    ensures |d| <= |text|
    ensures AllDigits(d)
    decreases |text|
  {
    if text == [] then []
    else (if IsDigit(text[0]) then [text[0]] else []) + Digits(text[1..])
  }

  /** Digits distributes over concatenation: together with its value on a
      single character this pins it down as the in-order filter. */
  lemma {:induction false} DigitsAppend(a: string, b: string)
    ensures Digits(a + b) == Digits(a) + Digits(b)
    decreases |a|
  {
    if a != [] {
      var head := if IsDigit(a[0]) then [a[0]] else [];
      assert (a + b)[0] == a[0];
      assert (a + b)[1..] == a[1..] + b;
      DigitsAppend(a[1..], b);
      assert Digits(a + b) == head + (Digits(a[1..]) + Digits(b));
    } else {
      assert a + b == b;
    }
  }

  /** Every digit of text survives, as many times as it occurs, and nothing
      else does. */
  lemma {:induction false} DigitsKeepsEveryDigit(text: string, c: char)
    ensures multiset(Digits(text))[c] == if IsDigit(c) then multiset(text)[c] else 0
    decreases |text|
  {
    if text != [] {
      DigitsKeepsEveryDigit(text[1..], c);
      assert text == [text[0]] + text[1..];
    }
  }

  /** A string of digits is its own cleaning. */
  lemma {:induction false} DigitsOfDigits(text: string)
    requires AllDigits(text)
    ensures Digits(text) == text
    decreases |text|
  {
    if text != [] {
      DigitsOfDigits(text[1..]);
      assert [text[0]] + text[1..] == text;
    }
  }
}
