/** The few Python built-ins the two scripts lean on, with the edge cases
    Python gives them: negative list indices, clamped slices, `str.strip`,
    `'%d'` formatting, `int()` on a decimal string and `str.split`. */
module Builtins {

  datatype Option<+T> = None | Some(value: T)

  /** `xs[i]` on a Python list: a negative index counts from the end;
      None stands for the IndexError it raises. */
  function PyAt<T>(xs: seq<T>, i: int): Option<T>
  {
    if 0 <= i < |xs| then Some(xs[i])
    else if -|xs| <= i < 0 then Some(xs[|xs| + i])
    else None
  }

  /** `s[lo:hi]` for non-negative bounds: both are clamped to the length
      and an inverted range gives the empty string, never an error. */
  function Slice(s: string, lo: nat, hi: nat): string
  {
    var a := if lo < |s| then lo else |s|;
    var b := if hi < |s| then hi else |s|;
    if a <= b then s[a..b] else []
  }

  /** `c.isspace()`: the code points Python treats as whitespace. */
  predicate IsSpace(c: char)
  {
    var n := c as int;
    n == 0x20 || 0x09 <= n <= 0x0D || 0x1C <= n <= 0x1F || n == 0x85 || n == 0xA0
    || n == 0x1680 || 0x2000 <= n <= 0x200A || n == 0x2028 || n == 0x2029
    || n == 0x202F || n == 0x205F || n == 0x3000
  }

  predicate AllSpace(s: string)
  {
    forall i :: 0 <= i < |s| ==> IsSpace(s[i])
  }

  /** `s.lstrip()`: a suffix of s, and what it cuts off is whitespace. */
  function StripLeft(s: string): (r: string)
    ensures |r| <= |s| && r == s[|s| - |r|..]
    ensures forall i :: 0 <= i < |s| - |r| ==> IsSpace(s[i])
    decreases |s|
  {
    if |s| > 0 && IsSpace(s[0]) then StripLeft(s[1..]) else s
  }

  /** `s.rstrip()`: a prefix of s, and what it cuts off is whitespace. */
  function StripRight(s: string): (r: string)
    ensures |r| <= |s| && r == s[..|r|]
    ensures forall i :: |r| <= i < |s| ==> IsSpace(s[i])
    decreases |s|
  {
    if |s| > 0 && IsSpace(s[|s| - 1]) then StripRight(s[..|s| - 1]) else s
  }

  /** `s.strip()` */
  function Strip(s: string): string
  {
    StripRight(StripLeft(s))
  }

  lemma {:induction false} StripLeftSpec(s: string)
    ensures StripLeft(s) == [] <==> AllSpace(s)
    ensures StripLeft(s) != [] ==> !IsSpace(StripLeft(s)[0])
  {
    if |s| > 0 && IsSpace(s[0]) {
      StripLeftSpec(s[1..]);
      if AllSpace(s[1..]) {
        assert AllSpace(s) by {
          forall i | 0 <= i < |s| ensures IsSpace(s[i]) {
            if i > 0 { assert s[i] == s[1..][i - 1]; }
          }
        }
      }
      if AllSpace(s) {
        assert AllSpace(s[1..]) by {
          forall i | 0 <= i < |s| - 1 ensures IsSpace(s[1..][i]) { assert s[1..][i] == s[i + 1]; }
        }
      }
    } else if |s| > 0 {
      assert !IsSpace(s[0]);
    }
  }

  lemma {:induction false} StripRightSpec(s: string)
    ensures StripRight(s) == [] <==> AllSpace(s)
    ensures StripRight(s) != [] ==> !IsSpace(StripRight(s)[|StripRight(s)| - 1])
    ensures |s| > 0 && !IsSpace(s[0]) ==> StripRight(s) != [] && StripRight(s)[0] == s[0]
  {
    if |s| > 0 && IsSpace(s[|s| - 1]) {
      var t := s[..|s| - 1];
      StripRightSpec(t);
      if AllSpace(t) {
        assert AllSpace(s) by {
          forall i | 0 <= i < |s| ensures IsSpace(s[i]) {
            if i < |s| - 1 { assert s[i] == t[i]; }
          }
        }
      }
      if AllSpace(s) {
        assert AllSpace(t) by {
          forall i | 0 <= i < |t| ensures IsSpace(t[i]) { assert t[i] == s[i]; }
        }
      }
    } else if |s| > 0 {
      assert !IsSpace(s[|s| - 1]);
    }
  }

  /** Stripping empties exactly the all-whitespace strings. */
  lemma StripBlank(s: string)
    ensures Strip(s) == [] <==> AllSpace(s)
  {
    StripLeftSpec(s);
    if !AllSpace(s) {
      StripRightSpec(StripLeft(s));
    }
  }

  /** `lstrip` cuts a run of whitespace off the front. */
  lemma StripLeftCut(s: string) returns (a: string)
    ensures s == a + StripLeft(s) && AllSpace(a)
  {
    var l := StripLeft(s);
    a := s[..|s| - |l|];
    assert s == a + s[|s| - |l|..];
    assert forall i :: 0 <= i < |a| ==> a[i] == s[i];
  }

  /** `rstrip` cuts a run of whitespace off the back. */
  lemma StripRightCut(s: string) returns (b: string)
    ensures s == StripRight(s) + b && AllSpace(b)
  {
    var r := StripRight(s);
    b := s[|r|..];
    assert s == s[..|r|] + b;
    assert forall i :: 0 <= i < |b| ==> b[i] == s[|r| + i];
  }

  /** The whitespace runs that stripping cuts off the two ends of s. */
  lemma StripEnds(s: string) returns (a: string, b: string)
    ensures s == a + (Strip(s) + b)
    ensures AllSpace(a) && AllSpace(b)
  {
    a := StripLeftCut(s);
    b := StripRightCut(StripLeft(s));
  }

  /** Stripping leaves no whitespace at either end, is empty exactly for an
      all-whitespace string, and is idempotent. */
  lemma {:induction false} StripShape(s: string)
    ensures Strip(s) == [] <==> AllSpace(s)
    ensures Strip(s) != [] ==> !IsSpace(Strip(s)[0]) && !IsSpace(Strip(s)[|Strip(s)| - 1])
    ensures Strip(Strip(s)) == Strip(s)
  {
    StripBlank(s);
    StripEndsKept(s);
    StripTrimmed(Strip(s));
  }

  lemma StripEndsKept(s: string)
    ensures Strip(s) != [] ==> !IsSpace(Strip(s)[0]) && !IsSpace(Strip(s)[|Strip(s)| - 1])
  {
    var l := StripLeft(s);
    if Strip(s) != [] {
      StripLeftSpec(s);
      StripRightSpec(l);
    }
  }

  /** A string with no whitespace at either end is left as it is. */
  lemma StripTrimmed(r: string)
    requires r != [] ==> !IsSpace(r[0]) && !IsSpace(r[|r| - 1])
    ensures Strip(r) == r
  {
    assert StripLeft(r) == r;
  }

  /** `str.strip`: it removes only whitespace, and only at the two ends, so
      s is the stripped text between two runs of whitespace; the result has
      no whitespace at either end, is empty exactly for an all-whitespace
      string, and stripping again changes nothing. */
  lemma StripSpec(s: string)
    ensures exists a, b :: s == a + (Strip(s) + b) && AllSpace(a) && AllSpace(b)
    ensures Strip(s) == [] <==> AllSpace(s)
    ensures Strip(s) != [] ==> !IsSpace(Strip(s)[0]) && !IsSpace(Strip(s)[|Strip(s)| - 1])
    ensures Strip(Strip(s)) == Strip(s)
  {
    var a, b := StripEnds(s);
    StripShape(s);
  }

  predicate IsDigit(c: char)
  {
    '0' <= c <= '9'
  }

  predicate AllDigits(s: string)
  {
    forall i :: 0 <= i < |s| ==> IsDigit(s[i])
  }

  function DigitChar(d: nat): char
    requires d < 10
  {
    (('0' as int) + d) as char
  }

  /** `'%d' % n` for a non-negative n. */
  function NatToString(n: nat): (s: string)
    ensures |s| > 0 && AllDigits(s)
    decreases n
  {
    if n < 10 then [DigitChar(n)] else NatToString(n / 10) + [DigitChar(n % 10)]
  }

  /** `'%d' % i`, and `str(i)`, for any int. */
  function IntToString(i: int): string
  {
    if i < 0 then "-" + NatToString(-i) else NatToString(i)
  }

  /** The value of a non-empty string of decimal digits, leading zeros allowed. */
  function DigitsValue(s: string): nat
    requires |s| > 0 && AllDigits(s)
    decreases |s|
  {
    var last := (s[|s| - 1] as int) - ('0' as int);
    if |s| == 1 then last else DigitsValue(s[..|s| - 1]) * 10 + last
  }

  /** `int(s)` on a string of decimal digits; None stands for the ValueError. */
  function ParseInt(s: string): Option<nat>
  {
    if |s| > 0 && AllDigits(s) then Some(DigitsValue(s)) else None
  }

  /** Reading back what `'%d'` wrote gives the number again. */
  lemma {:induction false} ParseNatToString(n: nat)
    ensures ParseInt(NatToString(n)) == Some(n)
    decreases n
  {
    var s := NatToString(n);
    if n >= 10 {
      ParseNatToString(n / 10);
      assert s[..|s| - 1] == NatToString(n / 10);
    }
  }

  /** `'%d'` writes no leading zero. */
  lemma {:induction false} NatToStringLead(n: nat)
    ensures |NatToString(n)| > 1 <==> n >= 10
    ensures n >= 1 ==> NatToString(n)[0] != '0'
    decreases n
  {
    if n >= 10 {
      NatToStringLead(n / 10);
      assert NatToString(n)[0] == NatToString(n / 10)[0];
    }
  }

  /** A digit string without a leading zero is what `'%d'` writes for its
      value. */
  lemma {:induction false} DigitsNatToString(s: string)
    requires |s| > 0 && AllDigits(s) && (|s| > 1 ==> s[0] != '0')
    ensures NatToString(DigitsValue(s)) == s
    decreases |s|
  {
    if |s| > 1 {
      var p := s[..|s| - 1];
      assert p[0] == s[0];
      DigitsNatToString(p);
      var v, last := DigitsValue(p), (s[|s| - 1] as int) - ('0' as int);
      assert v != 0 by { assert p != NatToString(0); }
      assert DigitsValue(s) / 10 == v && DigitsValue(s) % 10 == last;
      assert s == p + [s[|s| - 1]];
    }
  }

  /** `s.split(sep)` */
  function Split(s: string, sep: char): (parts: seq<string>)
    ensures |parts| >= 1
    decreases |s|
  {
    if |s| == 0 then [""]
    else if s[0] == sep then [""] + Split(s[1..], sep)
    else
      var rest := Split(s[1..], sep);
      [[s[0]] + rest[0]] + rest[1..]
  }

  lemma {:induction false} SplitNoSep(s: string, sep: char)
    requires sep !in s
    ensures Split(s, sep) == [s]
    decreases |s|
  {
    if |s| > 0 {
      SplitNoSep(s[1..], sep);
      assert [s[0]] + s[1..] == s;
    }
  }

  lemma {:induction false} SplitAtFirst(a: string, sep: char, b: string)
    requires sep !in a
    ensures Split(a + [sep] + b, sep) == [a] + Split(b, sep)
    decreases |a|
  {
    var s := a + [sep] + b;
    if |a| == 0 {
      assert s[0] == sep && s[1..] == b;
    } else {
      SplitAtFirst(a[1..], sep, b);
      assert s[1..] == a[1..] + [sep] + b;
      assert s[0] == a[0] && s[0] != sep;
      assert [a[0]] + a[1..] == a;
    }
  }

  /** `s.endswith(suffix)` */
  predicate EndsWith(s: string, suffix: string)
  {
    |suffix| <= |s| && s[|s| - |suffix|..] == suffix
  }
}
