/** The few Python `str` operations the parsers rely on, over ASCII:
    `isspace`, `isdigit`, `strip`, `lower`, `in`, `split("\n")` and `sep.join`. */
module Text {

  /** `str.isspace` on one ASCII character: blank, \t \n \v \f \r and \x1c-\x1f. */
  predicate IsSpace(c: char)
  {
    c == ' ' || (9 <= c as int <= 13) || (28 <= c as int <= 31)
  }

  predicate IsDigit(c: char)
  {
    '0' <= c <= '9'
  }

  /** `str.isdigit`: at least one character, and every character a digit. */
  predicate IsDecimal(s: string)
  {
    |s| > 0 && forall k :: 0 <= k < |s| ==> IsDigit(s[k])
  }

  /** Every character is whitespace (so `not s.strip()` in Python). */
  predicate IsBlank(s: string)
  {
    forall k :: 0 <= k < |s| ==> IsSpace(s[k])
  }

  /** The number of whitespace characters `s` starts with. */
  function LeadingSpaces(s: string): (n: nat)
    ensures n <= |s|
    ensures forall k :: 0 <= k < n ==> IsSpace(s[k])
    ensures n == |s| || !IsSpace(s[n])
  {
    if s == [] || !IsSpace(s[0]) then 0 else 1 + LeadingSpaces(s[1..])
  }

  /** The length of `s` without its trailing whitespace. */
  function TrailingStart(s: string): (n: nat)
    ensures n <= |s|
    ensures forall k :: n <= k < |s| ==> IsSpace(s[k])
    ensures n == 0 || !IsSpace(s[n - 1])
  {
    if s == [] || !IsSpace(s[|s| - 1]) then |s| else TrailingStart(s[..|s| - 1])
  }

  /** `str.strip()`: removes leading and trailing whitespace. The result is
      empty exactly for blank input, and otherwise starts and ends with a
      non-space character. `StripTrims` shows it is the input less its outer
      whitespace. */
  function Strip(s: string): (r: string)
    ensures |r| <= |s|
    ensures r == [] <==> IsBlank(s)
    ensures r == [] || (!IsSpace(r[0]) && !IsSpace(r[|r| - 1]))
  {
    var a := LeadingSpaces(s);
    if a == |s| then [] else s[a..TrailingStart(s)]
  }

  /** The stripped text is a slice of the input with only whitespace on either
      side; with the end characters of `Strip`'s contract, this is the slice
      that `strip()` keeps. */
  lemma StripTrims(s: string)
    ensures exists a :: 0 <= a <= |s| - |Strip(s)| && s[a..a + |Strip(s)|] == Strip(s)
                        && IsBlank(s[..a]) && IsBlank(s[a + |Strip(s)|..])
  {
    var a := LeadingSpaces(s);
    if a == |s| {
      assert s[0..0] == Strip(s) && IsBlank(s[..0]) && IsBlank(s[0..]);
    } else {
      var b := TrailingStart(s);
      assert s[a..a + |Strip(s)|] == Strip(s);
      assert IsBlank(s[..a]) && IsBlank(s[b..]);
    }
  }

  lemma LeadingSpacesAppend(x: string, y: string)
    requires !IsBlank(x)
    ensures LeadingSpaces(x + y) == LeadingSpaces(x)
  {
    var n := LeadingSpaces(x);
    assert (x + y)[n] == x[n];
    if n > 0 {
      assert (x + y)[1..] == x[1..] + y;
      assert !IsBlank(x[1..]) by {
        assert x[1..][n - 1] == x[n];
      }
      LeadingSpacesAppend(x[1..], y);
    }
  }

  lemma TrailingStartAppendSpace(x: string)
    ensures TrailingStart(x + " ") == TrailingStart(x)
  {
    var y := x + " ";
    assert y[..|y| - 1] == x;
  }

  lemma BlankAppendSpace(x: string)
    requires IsBlank(x)
    ensures IsBlank(x + " ")
  {
    var y := x + " ";
    forall k | 0 <= k < |y|
      ensures IsSpace(y[k])
    {
      if k < |x| {
        assert y[k] == x[k];
      }
    }
  }

  lemma StripInner(s: string)
    requires !IsBlank(s)
    ensures LeadingSpaces(s) < |s| && Strip(s) == s[LeadingSpaces(s)..TrailingStart(s)]
  {
  }

  lemma NonBlankAppendSpace(x: string)
    requires !IsBlank(x)
    ensures !IsBlank(x + " ")
  {
    var k :| 0 <= k < |x| && !IsSpace(x[k]);
    assert (x + " ")[k] == x[k];
  }

  /** Past a non-blank text, the appended blank is trimmed with the rest. */
  lemma StripAppendSpaceSlice(x: string)
    requires !IsBlank(x)
    ensures Strip(x + " ") == (x + " ")[LeadingSpaces(x)..TrailingStart(x)]
  {
    NonBlankAppendSpace(x);
    StripInner(x + " ");
    LeadingSpacesAppend(x, " ");
    TrailingStartAppendSpace(x);
  }

  lemma StripAppendSpaceNonBlank(x: string)
    requires !IsBlank(x)
    ensures Strip(x + " ") == Strip(x)
  {
    StripInner(x);
    StripAppendSpaceSlice(x);
    SliceAppend(x, " ", LeadingSpaces(x), TrailingStart(x));
  }

  lemma SliceAppend(x: string, y: string, a: nat, b: nat)
    requires a <= b <= |x|
    ensures (x + y)[a..b] == x[a..b]
  {
    assert (x + y)[..|x|] == x;
    assert (x + y)[a..b] == (x + y)[..|x|][a..b];
  }

  /** A trailing blank does not change what `strip()` returns. */
  lemma StripAppendSpace(x: string)
    ensures Strip(x + " ") == Strip(x)
  {
    if IsBlank(x) {
      BlankAppendSpace(x);
    } else {
      StripAppendSpaceNonBlank(x);
    }
  }

  function LowerChar(c: char): char
  {
    if 'A' <= c <= 'Z' then (c as int + 32) as char else c
  }

  /** `str.lower()` over ASCII. */
  function Lower(s: string): (r: string)
    ensures |r| == |s|
    ensures forall k :: 0 <= k < |r| ==> !('A' <= r[k] <= 'Z')
    ensures forall k :: 0 <= k < |r| ==> r[k] == s[k] || ('A' <= s[k] <= 'Z' && r[k] as int == s[k] as int + 32)
  {
    seq(|s|, k requires 0 <= k < |s| => LowerChar(s[k]))
  }

  /** Python's substring test `pat in s`. */
  predicate Contains(s: string, pat: string)
    decreases |s|
  {
    pat <= s || (s != [] && Contains(s[1..], pat))
  }

  /** `s.split(sep)` for a one-character separator: always at least one piece. */
  function Split(s: string, sep: char): (r: seq<string>)
    ensures |r| >= 1
    ensures forall k :: 0 <= k < |r| ==> sep !in r[k]
  {
    if s == [] then [[]]
    else
      var rest := Split(s[1..], sep);
      if s[0] == sep then [[]] + rest else [[s[0]] + rest[0]] + rest[1..]
  }

  /** `sep.join(xs)`. */
  function JoinWith(xs: seq<string>, sep: string): string
  {
    if xs == [] then []
    else if |xs| == 1 then xs[0]
    else xs[0] + sep + JoinWith(xs[1..], sep)
  }

  /** Joining the pieces of a split with the separator gives back the input. */
  lemma {:induction false} JoinSplit(s: string, sep: char)
    ensures JoinWith(Split(s, sep), [sep]) == s
  {
    if s != [] {
      var rest := Split(s[1..], sep);
      JoinSplit(s[1..], sep);
      if s[0] != sep {
        if |rest| == 1 {
          assert Split(s, sep) == [[s[0]] + rest[0]];
        } else {
          assert rest == [rest[0]] + rest[1..];
          assert JoinWith(rest, [sep]) == rest[0] + [sep] + JoinWith(rest[1..], [sep]);
        }
      }
    }
  }

  lemma {:induction false} SplitPrefix(a: string, t: string, sep: char)
    requires sep !in a
    ensures Split(a + t, sep) == [a + Split(t, sep)[0]] + Split(t, sep)[1..]
  {
    if a != [] {
      var S := Split(t, sep);
      assert (a + t)[1..] == a[1..] + t;
      assert (a + t)[0] == a[0] != sep;
      SplitPrefix(a[1..], t, sep);
      var rest := Split(a[1..] + t, sep);
      assert Split(a + t, sep) == [[a[0]] + rest[0]] + rest[1..];
      assert rest[0] == a[1..] + S[0];
      assert rest[1..] == S[1..];
      assert [a[0]] + (a[1..] + S[0]) == a + S[0];
    } else {
      var S := Split(t, sep);
      assert a + t == t && a + S[0] == S[0];
      assert S == [S[0]] + S[1..];
    }
  }

  /** Splitting pieces that do not contain the separator, once joined, gives
      back the pieces. */
  lemma {:induction false} SplitJoin(xs: seq<string>, sep: char)
    requires |xs| >= 1
    requires forall k :: 0 <= k < |xs| ==> sep !in xs[k]
    ensures Split(JoinWith(xs, [sep]), sep) == xs
  {
    if |xs| == 1 {
      SplitPrefix(xs[0], [], sep);
      assert xs[0] + [] == xs[0];
    } else {
      SplitJoin(xs[1..], sep);
      var tail := JoinWith(xs[1..], [sep]);
      assert JoinWith(xs, [sep]) == xs[0] + ([sep] + tail);
      SplitPrefix(xs[0], [sep] + tail, sep);
      assert ([sep] + tail)[1..] == tail;
      assert Split([sep] + tail, sep) == [[]] + Split(tail, sep);
      assert xs[0] + [] == xs[0];
      assert xs == [xs[0]] + xs[1..];
    }
  }

  /** The characters of a string as one-character strings (iterating a `str`). */
  function Chars(s: string): (r: seq<string>)
    ensures |r| == |s|
    ensures forall k :: 0 <= k < |s| ==> r[k] == [s[k]]
  {
    seq(|s|, k requires 0 <= k < |s| => [s[k]])
  }

  /** `" ".join(s)` applied to a string: its characters separated by blanks. */
  function Interleave(s: string): string
  {
    JoinWith(Chars(s), " ")
  }

  /** `" ".join(s)` keeps the characters of `s` at the even positions and puts a
      blank at every odd position, so it is 2|s| - 1 long. */
  lemma {:induction false} InterleaveShape(s: string)
    ensures |Interleave(s)| == if s == [] then 0 else 2 * |s| - 1
    ensures forall i :: 0 <= i < |Interleave(s)| ==>
              Interleave(s)[i] == if i % 2 == 0 then s[i / 2] else ' '
  {
    if |s| >= 2 {
      InterleaveShape(s[1..]);
      assert Chars(s)[1..] == Chars(s[1..]);
      var t := Interleave(s[1..]);
      assert Interleave(s) == [s[0]] + " " + t;
      forall i | 0 <= i < |Interleave(s)|
        ensures Interleave(s)[i] == if i % 2 == 0 then s[i / 2] else ' '
      {
        if i >= 2 {
          assert Interleave(s)[i] == t[i - 2];
          assert s[1..][(i - 2) / 2] == s[i / 2];
        }
      }
    }
  }

  /** The value of a run of decimal digits, as `int(...)` computes it. */
  function DecimalValue(s: string): nat
    requires forall k :: 0 <= k < |s| ==> IsDigit(s[k])
  {
    if s == [] then 0
    else
      var d := s[|s| - 1];
      assert IsDigit(d);
      DecimalValue(s[..|s| - 1]) * 10 + (d as int - '0' as int)
  }
}
