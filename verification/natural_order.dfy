/** The key `stack_data` sorts device names by: the list of integers written
    in the name (`re.findall(r'\d+', name)` converted with `int`), then the
    name itself, compared as Python compares lists and strings. */
module NaturalOrder {

  predicate IsDigit(c: char)
  {
    '0' <= c <= '9'
  }

  function DigitValue(c: char): nat
    requires IsDigit(c)
  {
    (c as int) - ('0' as int)
  }

  /** `int(s)` for a string of decimal digits. */
  function Decimal(s: string): nat
    requires forall i :: 0 <= i < |s| ==> IsDigit(s[i])
  {
    if s == [] then 0 else Decimal(s[..|s| - 1]) * 10 + DigitValue(s[|s| - 1])
  }

  /** Length of the run of digits at the start of `s`. */
  function DigitPrefix(s: string): (n: nat)
    ensures n <= |s|
    ensures forall i :: 0 <= i < n ==> IsDigit(s[i])
    ensures n < |s| ==> !IsDigit(s[n])
  {
    if s != [] && IsDigit(s[0]) then 1 + DigitPrefix(s[1..]) else 0
  }

  /** `list(map(int, re.findall(r'\d+', s)))`: the values of the maximal runs of
      ASCII digits in `s`, left to right. */
  function DigitRuns(s: string): seq<nat>
    decreases |s|
  {
    if s == [] then []
    else if !IsDigit(s[0]) then DigitRuns(s[1..])
    else
      var n := DigitPrefix(s);
      [Decimal(s[..n])] + DigitRuns(s[n..])
  }

  /** Python's `<` on two lists of integers: the first difference decides, and
      a proper prefix is smaller. */
  predicate LexLess(a: seq<int>, b: seq<int>)
  {
    if a == [] then b != []
    else if b == [] then false
    else a[0] < b[0] || (a[0] == b[0] && LexLess(a[1..], b[1..]))
  }

  /** Python's `<` on strings compares code points lexicographically. */
  function Codes(s: string): (r: seq<int>)
    ensures |r| == |s|
    ensures forall i :: 0 <= i < |s| ==> r[i] == s[i] as int
  {
    seq(|s|, i requires 0 <= i < |s| => s[i] as int)
  }

  predicate StrLess(a: string, b: string)
  {
    LexLess(Codes(a), Codes(b))
  }

  /** The order of the `(digit runs, name)` tuples `stack_data` sorts by. */
  predicate DeviceLess(a: string, b: string)
  {
    var ka, kb := DigitRuns(a), DigitRuns(b);
    LexLess(ka, kb) || (ka == kb && StrLess(a, b))
  }

  /** A string without digits has no digit runs. */
  lemma {:induction false} RunsOfNoDigits(s: string)
    requires forall i :: 0 <= i < |s| ==> !IsDigit(s[i])
    ensures DigitRuns(s) == []
  {
    if s != [] {
      RunsOfNoDigits(s[1..]);
    }
  }

  /** Digit-free text in front of a string adds no digit runs. */
  lemma {:induction false} SkipNoDigits(x: string, t: string)
    requires forall i :: 0 <= i < |x| ==> !IsDigit(x[i])
    ensures DigitRuns(x + t) == DigitRuns(t)
  {
    if x == [] {
      assert x + t == t;
    } else {
      assert (x + t)[0] == x[0] && (x + t)[1..] == x[1..] + t;
      SkipNoDigits(x[1..], t);
    }
  }

  /** A non-empty string of digits is a single run with its decimal value. */
  lemma RunsOfNumber(s: string)
    requires s != []
    requires forall i :: 0 <= i < |s| ==> IsDigit(s[i])
    ensures DigitRuns(s) == [Decimal(s)]
  {
    assert DigitPrefix(s) == |s| by {
      DigitPrefixAll(s);
    }
    assert s[..|s|] == s;
    assert DigitRuns(s[|s|..]) == [];
  }

  lemma {:induction false} DigitPrefixAll(s: string)
    requires forall i :: 0 <= i < |s| ==> IsDigit(s[i])
    ensures DigitPrefix(s) == |s|
  {
    if s != [] {
      DigitPrefixAll(s[1..]);
    }
  }

  /** A non-digit character separates the runs on its two sides:
      the runs of `a + [c] + b` are those of `a` followed by those of `b`. */
  lemma {:induction false} RunsAcrossSeparator(a: string, c: char, b: string)
    requires !IsDigit(c)
    ensures DigitRuns(a + [c] + b) == DigitRuns(a) + DigitRuns(b)
    decreases |a|
  {
    var s := a + [c] + b;
    if a == [] {
      assert s[1..] == b;
    } else if !IsDigit(a[0]) {
      assert s[1..] == a[1..] + [c] + b;
      RunsAcrossSeparator(a[1..], c, b);
    } else {
      var n := DigitPrefix(a);
      DigitPrefixStops(a, c, b);
      assert s[..n] == a[..n];
      assert s[n..] == a[n..] + [c] + b;
      RunsAcrossSeparator(a[n..], c, b);
    }
  }

  /** The leading digit run of `a + [c] + b` ends inside `a` when `c` is not a digit. */
  lemma {:induction false} DigitPrefixStops(a: string, c: char, b: string)
    requires !IsDigit(c)
    ensures DigitPrefix(a + [c] + b) == DigitPrefix(a)
  {
    if a == [] {
    } else if IsDigit(a[0]) {
      assert (a + [c] + b)[1..] == a[1..] + [c] + b;
      DigitPrefixStops(a[1..], c, b);
    }
  }

  lemma {:induction false} LexLessIrreflexive(a: seq<int>)
    ensures !LexLess(a, a)
  {
    if a != [] {
      LexLessIrreflexive(a[1..]);
    }
  }

  lemma {:induction false} LexLessTransitive(a: seq<int>, b: seq<int>, c: seq<int>)
    requires LexLess(a, b) && LexLess(b, c)
    ensures LexLess(a, c)
  {
    if a != [] && b != [] && c != [] && a[0] == b[0] == c[0] {
      LexLessTransitive(a[1..], b[1..], c[1..]);
    }
  }

  lemma {:induction false} LexLessTotal(a: seq<int>, b: seq<int>)
    requires a != b
    ensures LexLess(a, b) || LexLess(b, a)
  {
    if a != [] && b != [] && a[0] == b[0] {
      assert a == [a[0]] + a[1..] && b == [b[0]] + b[1..];
      LexLessTotal(a[1..], b[1..]);
    }
  }

  lemma CodesInjective(a: string, b: string)
    requires Codes(a) == Codes(b)
    ensures a == b
  {
    assert |a| == |b|;
    forall i | 0 <= i < |a|
      ensures a[i] == b[i]
    {
      assert Codes(a)[i] == Codes(b)[i];
    }
  }

  /** The device order is a strict total order on names: irreflexive,
      transitive, and any two different names are comparable. So sorting a
      list of distinct device names has exactly one outcome. */
  lemma DeviceLessStrictTotal(a: string, b: string, c: string)
    ensures !DeviceLess(a, a)
    ensures DeviceLess(a, b) && DeviceLess(b, c) ==> DeviceLess(a, c)
    ensures a != b ==> DeviceLess(a, b) || DeviceLess(b, a)
  {
    LexLessIrreflexive(DigitRuns(a));
    LexLessIrreflexive(Codes(a));
    if DeviceLess(a, b) && DeviceLess(b, c) {
      var ka, kb, kc := DigitRuns(a), DigitRuns(b), DigitRuns(c);
      if LexLess(ka, kb) && LexLess(kb, kc) {
        LexLessTransitive(ka, kb, kc);
      } else if !LexLess(ka, kb) && !LexLess(kb, kc) {
        LexLessTransitive(Codes(a), Codes(b), Codes(c));
      }
    }
    if a != b {
      if DigitRuns(a) != DigitRuns(b) {
        LexLessTotal(DigitRuns(a), DigitRuns(b));
      } else {
        if Codes(a) == Codes(b) {
          CodesInjective(a, b);
        }
        LexLessTotal(Codes(a), Codes(b));
      }
    }
  }
}
