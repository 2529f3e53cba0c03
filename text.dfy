/**
  The string primitives the matcher and the engine rely on, restricted to ASCII:
  String#strip, String#downcase, removing every non-digit (`gsub(/\D/, "")`)
  and ActiveSupport's String#blank?.
 */
module Text {

  /** ASCII whitespace, the POSIX class [[:space:]]: what blank? ignores. */
  predicate IsSpace(c: char) {
    c == ' ' || c == '\t' || c == '\n' || c == '\U{B}' || c == '\U{C}' || c == '\r'
  }

  /** What String#strip removes from either end: ASCII whitespace and NUL. */
  predicate IsStripChar(c: char) {
    c == '\0' || IsSpace(c)
  }

  predicate IsUpper(c: char) {
    'A' <= c <= 'Z'
  }

  predicate IsDigit(c: char) {
    '0' <= c <= '9'
  }

  /** String#blank?: empty or made of whitespace only. */
  predicate Blank(s: string) {
    forall i :: 0 <= i < |s| ==> IsSpace(s[i])
  }

  /** String#lstrip. */
  function TrimStart(s: string): string {
    if s != [] && IsStripChar(s[0]) then TrimStart(s[1..]) else s
  }

  /** String#rstrip. */
  function TrimEnd(s: string): string {
    if s != [] && IsStripChar(s[|s| - 1]) then TrimEnd(s[..|s| - 1]) else s
  }

  /** TrimStart leaves the longest suffix of `s` that does not start with a strip character. */
  lemma {:induction false} TrimStartSpec(s: string)
    ensures var r := TrimStart(s);
      && |r| <= |s| && r == s[|s| - |r|..]
      && (r == [] || !IsStripChar(r[0]))
      && (forall i :: 0 <= i < |s| - |r| ==> IsStripChar(s[i]))
    decreases |s|
  {
    if s != [] && IsStripChar(s[0]) {
      TrimStartSpec(s[1..]);
    }
  }

  /** TrimEnd leaves the longest prefix of `s` that does not end with a strip character. */
  lemma {:induction false} TrimEndSpec(s: string)
    ensures var r := TrimEnd(s);
      && |r| <= |s| && r == s[..|r|]
      && (r == [] || !IsStripChar(r[|r| - 1]))
      && (forall i :: |r| <= i < |s| ==> IsStripChar(s[i]))
    decreases |s|
  {
    if s != [] && IsStripChar(s[|s| - 1]) {
      TrimEndSpec(s[..|s| - 1]);
    }
  }

  /** Strip characters in front of a string that does not start with one are all removed. */
  lemma {:induction false} TrimStartPadded(pre: string, s: string)
    requires forall i :: 0 <= i < |pre| ==> IsStripChar(pre[i])
    requires s != [] && !IsStripChar(s[0])
    ensures TrimStart(pre + s) == s
    decreases |pre|
  {
    if pre == [] {
      assert pre + s == s;
    } else {
      assert (pre + s)[1..] == pre[1..] + s;
      TrimStartPadded(pre[1..], s);
    }
  }

  /** Strip characters after a string that does not end with one are all removed. */
  lemma {:induction false} TrimEndPadded(s: string, post: string)
    requires forall i :: 0 <= i < |post| ==> IsStripChar(post[i])
    requires s != [] && !IsStripChar(s[|s| - 1])
    ensures TrimEnd(s + post) == s
    decreases |post|
  {
    if post == [] {
      assert s + post == s;
    } else {
      var shorter := post[..|post| - 1];
      assert (s + post)[..|s + post| - 1] == s + shorter;
      TrimEndPadded(s, shorter);
    }
  }

  /** String#strip. */
  function Strip(s: string): string {
    TrimEnd(TrimStart(s))
  }

  /** A blank string strips to nothing. */
  lemma BlankStripsToEmpty(s: string)
    requires Blank(s)
    ensures Strip(s) == []
  {
    TrimStartSpec(s);
  }

  /** Strip removes a run of strip characters at each end and nothing else. */
  lemma StripIsInnerSlice(s: string)
    ensures var r, a := Strip(s), |s| - |TrimStart(s)|;
      && 0 <= a && a + |r| <= |s|
      && r == s[a..a + |r|]
      && (forall i :: 0 <= i < a ==> IsStripChar(s[i]))
      && (forall i :: a + |r| <= i < |s| ==> IsStripChar(s[i]))
      && (r == [] || (!IsStripChar(r[0]) && !IsStripChar(r[|r| - 1])))
  {
    var t := TrimStart(s);
    var r := TrimEnd(t);
    var a := |s| - |t|;
    TrimStartSpec(s);
    TrimEndSpec(t);
    assert r == s[a..a + |r|] by {
      assert t == s[a..];
    }
    if r != [] {
      assert r[0] == t[0];
    }
    forall i | a + |r| <= i < |s|
      ensures IsStripChar(s[i])
    {
      assert s[i] == t[i - a];
    }
  }

  /** Strip gives back a string padded with strip characters on both sides. */
  lemma StripPadded(pre: string, s: string, post: string)
    requires forall i :: 0 <= i < |pre| ==> IsStripChar(pre[i])
    requires forall i :: 0 <= i < |post| ==> IsStripChar(post[i])
    requires s != [] && !IsStripChar(s[0]) && !IsStripChar(s[|s| - 1])
    ensures Strip(pre + s + post) == s
  {
    assert pre + s + post == pre + (s + post);
    TrimStartPadded(pre, s + post);
    TrimEndPadded(s, post);
  }

  lemma StripIdempotent(s: string)
    ensures Strip(Strip(s)) == Strip(s)
  {
    StripIsInnerSlice(s);
  }

  /** String#downcase on one ASCII character: an upper-case letter becomes a
      lower-case one, and every other character is left alone. */
  function Lower(c: char): (d: char)
    ensures !IsUpper(d)
    ensures IsUpper(c) ==> 'a' <= d <= 'z'
    ensures !IsUpper(c) ==> d == c
  {
    if IsUpper(c) then (c as int + 32) as char else c
  }

  /** String#downcase, ASCII letters only: every character lower-cased in place. */
  function Downcase(s: string): string {
    if s == [] then [] else [Lower(s[0])] + Downcase(s[1..])
  }

  /** Downcase lower-cases every character in place. */
  lemma {:induction false} DowncaseSpec(s: string)
    ensures |Downcase(s)| == |s|
    ensures forall i :: 0 <= i < |s| ==> Downcase(s)[i] == Lower(s[i])
    decreases |s|
  {
    if s != [] {
      DowncaseSpec(s[1..]);
    }
  }

  predicate IsLowerCase(s: string) {
    forall i :: 0 <= i < |s| ==> !IsUpper(s[i])
  }

  lemma DowncaseIsLowerCase(s: string)
    ensures IsLowerCase(Downcase(s))
    ensures IsLowerCase(s) <==> Downcase(s) == s
  {
    DowncaseSpec(s);
    if Downcase(s) == s {
      forall i | 0 <= i < |s|
        ensures !IsUpper(s[i])
      {
        assert Downcase(s)[i] == s[i];
      }
    }
  }

  lemma DowncaseIdempotent(s: string)
    ensures Downcase(Downcase(s)) == Downcase(s)
  {
    DowncaseIsLowerCase(s);
    DowncaseIsLowerCase(Downcase(s));
  }

  lemma {:induction false} TrimStartDowncase(s: string)
    ensures TrimStart(Downcase(s)) == Downcase(TrimStart(s))
    decreases |s|
  {
    if s != [] {
      var d := Downcase(s);
      DowncaseSpec(s);
      assert d[1..] == Downcase(s[1..]);
      assert IsStripChar(d[0]) == IsStripChar(s[0]);
      if IsStripChar(s[0]) {
        calc {
          TrimStart(d);
          TrimStart(d[1..]);
          { TrimStartDowncase(s[1..]); }
          Downcase(TrimStart(s[1..]));
        }
      }
    }
  }

  lemma {:induction false} TrimEndDowncase(s: string)
    ensures TrimEnd(Downcase(s)) == Downcase(TrimEnd(s))
    decreases |s|
  {
    if s != [] {
      var d := Downcase(s);
      DowncaseSpec(s);
      DowncaseSpec(s[..|s| - 1]);
      assert d[..|s| - 1] == Downcase(s[..|s| - 1]);
      assert IsStripChar(d[|s| - 1]) == IsStripChar(s[|s| - 1]);
      if IsStripChar(s[|s| - 1]) {
        calc {
          TrimEnd(d);
          TrimEnd(d[..|s| - 1]);
          { TrimEndDowncase(s[..|s| - 1]); }
          Downcase(TrimEnd(s[..|s| - 1]));
        }
      }
    }
  }

  /** Lower-casing never creates or removes whitespace, so the two rules commute. */
  lemma StripDowncase(s: string)
    ensures Strip(Downcase(s)) == Downcase(Strip(s))
  {
    TrimStartDowncase(s);
    TrimEndDowncase(TrimStart(s));
  }

  /** `gsub(/\D/, "")`: the decimal digits of `s`, in their original order. */
  function Digits(s: string): (r: string)
    ensures |r| <= |s|
    ensures forall i :: 0 <= i < |r| ==> IsDigit(r[i])
  {
    if s == [] then []
    else (if IsDigit(s[0]) then [s[0]] else []) + Digits(s[1..])
  }

  /** Digits distributes over concatenation: together with its value on one
      character this determines it completely. */
  lemma {:induction false} DigitsAppend(a: string, b: string)
    ensures Digits(a + b) == Digits(a) + Digits(b)
    decreases |a|
  {
    if a == [] {
      assert a + b == b;
    } else {
      assert (a + b)[0] == a[0];
      assert (a + b)[1..] == a[1..] + b;
      DigitsAppend(a[1..], b);
    }
  }

  /** One character keeps its place among the digits exactly when it is a digit. */
  lemma DigitsOfChar(c: char)
    ensures Digits([c]) == if IsDigit(c) then [c] else []
  {
    assert [c][1..] == [];
  }

  /** A string of digits is left as it is. */
  lemma {:induction false} DigitsKeepsDigitString(s: string)
    requires forall i :: 0 <= i < |s| ==> IsDigit(s[i])
    ensures Digits(s) == s
    decreases |s|
  {
    if s != [] {
      DigitsKeepsDigitString(s[1..]);
    }
  }

  lemma DigitsIdempotent(s: string)
    ensures Digits(Digits(s)) == Digits(s)
  {
    DigitsKeepsDigitString(Digits(s));
  }
}
