/**
 * The pieces of Python's runtime the annotator builds its fields with:
 * `sep.join(parts)`, `s.split(", ")` (used only to state what a joined field
 * holds), `str(n)` for an integer, and iteration over a `set`, whose order
 * Python leaves unspecified.
 */
module Text {
  import opened Wrappers

  /** Python's `sep.join(parts)`. */
  function Join(sep: string, parts: seq<string>): (r: string)
    ensures |parts| == 0 ==> r == ""
    ensures |parts| > 0 ==> |r| >= |parts[0]| && r[..|parts[0]|] == parts[0]
    decreases |parts|
  {
    if |parts| == 0 then ""
    else if |parts| == 1 then parts[0]
    else parts[0] + sep + Join(sep, parts[1..])
  }

  /** `s` has no occurrence of the separator ", ". */
  predicate NoComma(s: string) {
    forall i :: 0 <= i < |s| - 1 ==> !(s[i] == ',' && s[i + 1] == ' ')
  }

  /**
   * Python's `s.split(", ")`: cuts at every occurrence of the separator,
   * scanning from the left, and always yields at least one part
   * (`"".split(", ") == [""]`).
   */
  function SplitComma(s: string): (parts: seq<string>)
    ensures |parts| >= 1
    decreases |s|
  {
    if |s| < 2 then [s]
    else if s[0] == ',' && s[1] == ' ' then [""] + SplitComma(s[2..])
    else
      var rest := SplitComma(s[1..]);
      [[s[0]] + rest[0]] + rest[1..]
  }

  lemma {:induction false} SplitNoComma(a: string)
    requires NoComma(a)
    ensures SplitComma(a) == [a]
  {
    if |a| >= 2 {
      assert NoComma(a[1..]) by {
        forall i | 0 <= i < |a[1..]| - 1 ensures !(a[1..][i] == ',' && a[1..][i + 1] == ' ') {
          assert a[1..][i] == a[i + 1] && a[1..][i + 1] == a[i + 2];
        }
      }
      SplitNoComma(a[1..]);
      assert [a[0]] + a[1..] == a;
    }
  }

  lemma {:induction false} SplitAtComma(a: string, r: string)
    requires NoComma(a)
    ensures SplitComma(a + ", " + r) == [a] + SplitComma(r)
  {
    var s := a + ", " + r;
    if |a| == 0 {
      assert s == ", " + r;
      assert s[2..] == r;
    } else {
      assert s[1..] == a[1..] + ", " + r;
      assert NoComma(a[1..]) by {
        forall i | 0 <= i < |a[1..]| - 1 ensures !(a[1..][i] == ',' && a[1..][i + 1] == ' ') {
          assert a[1..][i] == a[i + 1] && a[1..][i + 1] == a[i + 2];
        }
      }
      SplitAtComma(a[1..], r);
      assert s[0] == a[0];
      assert |a| == 1 ==> s[1] == ',';
      assert |a| > 1 ==> s[1] == a[1];
      assert [a[0]] + a[1..] == a;
    }
  }

  /** Splitting a ", "-joined list gives the list back, when no part contains the separator. */
  lemma {:induction false} SplitJoin(parts: seq<string>)
    requires |parts| >= 1
    requires forall i :: 0 <= i < |parts| ==> NoComma(parts[i])
    ensures SplitComma(Join(", ", parts)) == parts
  {
    if |parts| == 1 {
      SplitNoComma(parts[0]);
    } else {
      SplitAtComma(parts[0], Join(", ", parts[1..]));
      SplitJoin(parts[1..]);
      assert [parts[0]] + parts[1..] == parts;
    }
  }

  predicate IsDigit(c: char) {
    '0' <= c <= '9'
  }

  predicate IsDecimal(s: string) {
    |s| >= 1 && forall i :: 0 <= i < |s| ==> IsDigit(s[i])
  }

  function Digit(d: nat): (c: char)
    requires d < 10
  {
    ('0' as int + d) as char
  }

  /** Python's `str(n)` for a non-negative integer: decimal digits, no leading zero. */
  function NatToString(n: nat): (s: string)
    ensures IsDecimal(s)
    ensures s[0] == '0' ==> n == 0
    decreases n
  {
    if n < 10 then [Digit(n)] else NatToString(n / 10) + [Digit(n % 10)]
  }

  /** The number a string of decimal digits denotes. */
  function DigitsValue(s: string): nat
    requires forall i :: 0 <= i < |s| ==> IsDigit(s[i])
    decreases |s|
  {
    if s == [] then 0
    else
      assert IsDigit(s[|s| - 1]);
      10 * DigitsValue(s[..|s| - 1]) + (s[|s| - 1] as int - '0' as int)
  }

  lemma {:induction false} NatToStringRoundTrip(n: nat)
    ensures DigitsValue(NatToString(n)) == n
  {
    if n >= 10 {
      var s := NatToString(n);
      assert s[..|s| - 1] == NatToString(n / 10);
      NatToStringRoundTrip(n / 10);
    }
  }

  /** Python's `str(n)` for any integer. */
  function IntToString(n: int): (s: string)
    ensures |s| >= 1
    ensures s[0] == '-' <==> n < 0
    ensures n < 0 ==> IsDecimal(s[1..])
    ensures n >= 0 ==> IsDecimal(s)
  {
    if n < 0 then "-" + NatToString(-n) else NatToString(n)
  }

  /** Reads back an integer written the way `str(n)` writes it; None for any other text. */
  function ParseInt(s: string): Option<int> {
    if |s| > 0 && s[0] == '-' then
      (if IsDecimal(s[1..]) then var v: int := DigitsValue(s[1..]); Some(-v) else None)
    else if IsDecimal(s) then Some(DigitsValue(s))
    else None
  }

  lemma IntToStringRoundTrip(n: int)
    ensures ParseInt(IntToString(n)) == Some(n)
  {
    if n < 0 {
      var s := IntToString(n);
      assert s[1..] == NatToString(-n);
      NatToStringRoundTrip(-n);
    } else {
      NatToStringRoundTrip(n);
    }
  }

  /** No element occurs twice. */
  predicate Distinct(p: seq<string>) {
    forall i, j :: 0 <= i < j < |p| ==> p[i] != p[j]
  }

  /** `p` lists every element of `s` exactly once, in some order: one way Python may iterate the set. */
  predicate Enumerates(p: seq<string>, s: set<string>) {
    Distinct(p) && (forall x :: x in p ==> x in s) && (forall x :: x in s ==> x in p)
  }

  /**
   * Iteration over a Python `set`, as `", ".join(levels)` performs it. The
   * language leaves the order unspecified, so each step picks any element not
   * yet visited.
   */
  method IterateSet(s: set<string>) returns (p: seq<string>)
    ensures Enumerates(p, s)
  {
    p := [];
    var rest := s;
    while rest != {}
      invariant rest <= s
      invariant Distinct(p)
      invariant forall x :: x in p <==> x in s && x !in rest
      decreases rest
    {
      var x :| x in rest;
      p := p + [x];
      rest := rest - {x};
    }
  }

  /** An enumeration of a set has exactly as many elements as the set. */
  lemma {:induction false} EnumerationSize(p: seq<string>, s: set<string>)
    requires Enumerates(p, s)
    ensures |p| == |s|
  {
    if |p| == 0 {
      assert s == {};
    } else {
      var rest := s - {p[0]};
      assert Enumerates(p[1..], rest) by {
        forall x ensures x in p[1..] <==> x in rest {
          if x in p[1..] {
            var k :| 0 <= k < |p[1..]| && p[1..][k] == x;
            assert p[k + 1] == x;
          }
          if x in rest {
            assert x in p;
            var k :| 0 <= k < |p| && p[k] == x;
            assert k != 0;
            assert p[1..][k - 1] == x;
          }
        }
      }
      EnumerationSize(p[1..], rest);
    }
  }

  lemma {:induction false} DistinctCount(p: seq<string>, y: string)
    requires Distinct(p)
    ensures multiset(p)[y] == if y in p then 1 else 0
  {
    if |p| > 0 {
      assert p == [p[0]] + p[1..];
      assert Distinct(p[1..]) by {
        forall i, j | 0 <= i < j < |p[1..]| ensures p[1..][i] != p[1..][j] {
          assert p[1..][i] == p[i + 1] && p[1..][j] == p[j + 1];
        }
      }
      DistinctCount(p[1..], y);
      assert p[0] !in p[1..] by {
        forall k | 0 <= k < |p[1..]| ensures p[1..][k] != p[0] {
          assert p[1..][k] == p[k + 1];
        }
      }
      assert multiset(p) == multiset{p[0]} + multiset(p[1..]);
    }
  }

  /** Two enumerations of the same set differ only in order: each is a permutation of the other. */
  lemma EnumerationsArePermutations(p1: seq<string>, p2: seq<string>, s: set<string>)
    requires Enumerates(p1, s) && Enumerates(p2, s)
    ensures multiset(p1) == multiset(p2)
  {
    forall y ensures multiset(p1)[y] == multiset(p2)[y] {
      DistinctCount(p1, y);
      DistinctCount(p2, y);
    }
  }
}
