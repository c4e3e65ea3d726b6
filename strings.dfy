/** The optional-value wrapper used for parse results. */
module Optional {
  datatype Option<T> = None | Some(value: T)
}

/**
 * Character-level helpers shared by the timestamp formatter, the cue
 * builder and the SRT reader: Python's `str(n)`, zero padding as done by
 * the `0N` format specifiers, `" ".join`, `str.split(" ")`, `str.replace`
 * on one character, and reading one line off the front of a text.
 */
module Strings {

  predicate IsDigit(c: char) {
    '0' <= c <= '9'
  }

  predicate AllDigits(s: string) {
    forall i :: 0 <= i < |s| ==> IsDigit(s[i])
  }

  function DigitChar(d: nat): (c: char)
    requires d < 10
    ensures IsDigit(c) && c as int - '0' as int == d
  {
    ('0' as int + d) as char
  }

  /** The number a string of decimal digits denotes (leading zeros allowed). */
  function Value(s: string): nat
    requires AllDigits(s)
  {
    if s == [] then 0 else 10 * Value(s[..|s| - 1]) + (s[|s| - 1] as int - '0' as int)
  }

  /** Python's `str(n)` for a non-negative integer: its decimal digits. */
  function Decimal(n: nat): (r: string)
    ensures 1 <= |r| && AllDigits(r)
    ensures Value(r) == n
    ensures n < 10 ==> |r| == 1
    ensures n >= 10 ==> |r| >= 2
    ensures n < 100 ==> |r| <= 2
    ensures n < 1000 ==> |r| <= 3
    ensures n >= 10 ==> r[0] != '0'
  {
    if n < 10 then
      [DigitChar(n)]
    else
      var r := Decimal(n / 10) + [DigitChar(n % 10)];
      assert r[..|r| - 1] == Decimal(n / 10);
      r
  }

  function Zeros(k: nat): (r: string)
    ensures |r| == k && AllDigits(r)
    ensures forall i :: 0 <= i < k ==> r[i] == '0'
  {
    if k == 0 then [] else Zeros(k - 1) + ['0']
  }

  /** Zero padding to a minimum width, as the format specifier `0<w>d` does. */
  function PadLeft(s: string, w: nat): (r: string)
    requires AllDigits(s)
  {
    if |s| >= w then s else Zeros(w - |s|) + s
  }

  lemma {:induction false} ValueOfZeros(k: nat)
    ensures Value(Zeros(k)) == 0
  {
    if k > 0 {
      assert Zeros(k)[..k - 1] == Zeros(k - 1);
      ValueOfZeros(k - 1);
    }
  }

  lemma {:induction false} ValueIgnoresLeadingZeros(k: nat, s: string)
    requires AllDigits(s)
    ensures AllDigits(Zeros(k) + s)
    ensures Value(Zeros(k) + s) == Value(s)
    decreases |s|
  {
    var z := Zeros(k) + s;
    if s == [] {
      assert z == Zeros(k);
      ValueOfZeros(k);
    } else {
      assert z[..|z| - 1] == Zeros(k) + s[..|s| - 1];
      ValueIgnoresLeadingZeros(k, s[..|s| - 1]);
    }
  }

  /** Padding keeps the digits, reaches the width and does not change the value. */
  lemma PadLeftDigits(s: string, w: nat)
    requires AllDigits(s)
    ensures AllDigits(PadLeft(s, w))
    ensures |PadLeft(s, w)| == if |s| >= w then |s| else w
    ensures Value(PadLeft(s, w)) == Value(s)
  {
    if |s| < w {
      ValueIgnoresLeadingZeros(w - |s|, s);
    }
  }

  /** Python's `str.replace(a, b)` for one-character `a` and `b`. */
  function ReplaceChar(s: string, a: char, b: char): (r: string)
    ensures |r| == |s|
  {
    if s == [] then [] else [if s[0] == a then b else s[0]] + ReplaceChar(s[1..], a, b)
  }

  /** The replacement goes character by character, so it splits over concatenation. */
  lemma {:induction false} ReplaceCharAppend(x: string, y: string, a: char, b: char)
    ensures ReplaceChar(x + y, a, b) == ReplaceChar(x, a, b) + ReplaceChar(y, a, b)
  {
    if x == [] {
      assert x + y == y;
    } else {
      assert (x + y)[0] == x[0] && (x + y)[1..] == x[1..] + y;
      ReplaceCharAppend(x[1..], y, a, b);
    }
  }

  /** A text without `a` is left as it is. */
  lemma {:induction false} ReplaceCharAbsent(x: string, a: char, b: char)
    requires a !in x
    ensures ReplaceChar(x, a, b) == x
  {
    if x != [] {
      assert a !in x[1..];
      ReplaceCharAbsent(x[1..], a, b);
      assert [x[0]] + x[1..] == x;
    }
  }

  /** Position of the first occurrence of `c` in `s` (Python's `s.index(c)`). */
  function IndexOf(s: string, c: char): (r: nat)
    requires c in s
    ensures r < |s| && s[r] == c && c !in s[..r]
  {
    if s[0] == c then 0 else 1 + IndexOf(s[1..], c)
  }

  /** The first occurrence of `c` in `a + [c] + b` is the one after `a`. */
  lemma IndexOfAfter(a: string, c: char, b: string)
    requires c !in a
    ensures c in a + [c] + b
    ensures IndexOf(a + [c] + b, c) == |a|
  {
    var s := a + [c] + b;
    assert s[|a|] == c;
    assert s[..|a|] == a;
    var r := IndexOf(s, c);
    assert forall j :: 0 <= j < r ==> s[..r][j] == s[j];
  }

  /** Splits off the text before the first line feed and the text after it. */
  function SplitLine(s: string): (r: (string, string))
    requires '\n' in s
    ensures '\n' !in r.0
    ensures s == r.0 + "\n" + r.1
  {
    var i := IndexOf(s, '\n');
    assert s == s[..i] + "\n" + s[i + 1..];
    (s[..i], s[i + 1..])
  }

  lemma SplitLineOf(a: string, b: string)
    requires '\n' !in a
    ensures '\n' in a + "\n" + b
    ensures SplitLine(a + "\n" + b) == (a, b)
  {
    IndexOfAfter(a, '\n', b);
    var s := a + "\n" + b;
    assert s[..|a|] == a && s[|a| + 1..] == b;
  }

  /** Python's `" ".join(ws)`. */
  function JoinSpaces(ws: seq<string>): string
  {
    if ws == [] then "" else if |ws| == 1 then ws[0] else ws[0] + " " + JoinSpaces(ws[1..])
  }

  /** Python's `s.split(" ")`: always at least one field. */
  function SplitSpaces(s: string): (r: seq<string>)
    ensures |r| >= 1
    decreases |s|
  {
    if ' ' in s then
      var i := IndexOf(s, ' ');
      [s[..i]] + SplitSpaces(s[i + 1..])
    else
      [s]
  }

  /** Joining with single spaces loses nothing when no field holds a space. */
  lemma {:induction false} SplitJoinSpaces(ws: seq<string>)
    requires |ws| >= 1
    requires forall k :: 0 <= k < |ws| ==> ' ' !in ws[k]
    ensures SplitSpaces(JoinSpaces(ws)) == ws
  {
    if |ws| > 1 {
      var rest := JoinSpaces(ws[1..]);
      IndexOfAfter(ws[0], ' ', rest);
      var s := ws[0] + " " + rest;
      assert s[..|ws[0]|] == ws[0] && s[|ws[0]| + 1..] == rest;
      SplitJoinSpaces(ws[1..]);
      assert ws == [ws[0]] + ws[1..];
    }
  }

  /** The join introduces spaces and nothing else, so it adds no line feed. */
  lemma {:induction false} JoinSpacesNoLineFeed(ws: seq<string>)
    requires forall k :: 0 <= k < |ws| ==> '\n' !in ws[k]
    ensures '\n' !in JoinSpaces(ws)
  {
    if |ws| > 1 {
      JoinSpacesNoLineFeed(ws[1..]);
    }
  }
}
