/** Python's `str.split`, `str.join`, `str.split(sep, 1)[1]`, `filter(None, ...)`
    and the `in` substring test, on strings as character sequences. */
module Text {
  import opened Wrappers

  /** `s.split(c)`: the pieces between occurrences of `c`; never empty. */
  function Split(s: string, c: char): (r: seq<string>)
    ensures |r| >= 1
  {
    if s == [] then [""]
    else
      var rest := Split(s[1..], c);
      if s[0] == c then [""] + rest
      else [[s[0]] + rest[0]] + rest[1..]
  }

  /** `c.join(parts)`. */
  function Join(parts: seq<string>, c: char): string
  {
    if |parts| == 0 then ""
    else if |parts| == 1 then parts[0]
    else parts[0] + [c] + Join(parts[1..], c)
  }

  /** `s.split(c, 1)[1]`: the text after the first `c`, or `None` where Python
      raises IndexError because `c` does not occur. */
  function AfterFirst(s: string, c: char): (r: Option<string>)
    ensures r.None? <==> c !in s
    ensures r.Some? ==> exists i :: 0 <= i < |s| && s[i] == c && c !in s[..i] && r.value == s[i + 1..]
  {
    if s == [] then None
    else if s[0] == c then
      assert s[..0] == [];
      Some(s[1..])
    else
      var r := AfterFirst(s[1..], c);
      if r.Some? then
        var i :| 0 <= i < |s[1..]| && s[1..][i] == c && c !in s[1..][..i] && r.value == s[1..][i + 1..];
        assert s[..i + 1] == [s[0]] + s[1..][..i];
        assert s[i + 2..] == s[1..][i + 1..];
        r
      else r
  }

  /** `filter(None, parts)`: the non-empty strings, in order. */
  function DropEmpty(parts: seq<string>): (r: seq<string>)
    ensures forall p :: p in r <==> p in parts && p != ""
    ensures |r| <= |parts|
  {
    if parts == [] then []
    else if parts[0] == "" then DropEmpty(parts[1..])
    else [parts[0]] + DropEmpty(parts[1..])
  }

  /** `filter(None, ...)` keeps order and multiplicity: it distributes over
      concatenation and keeps a single string exactly when it is non-empty,
      which fixes its result on every list. */
  lemma {:induction false} DropEmptyConcat(a: seq<string>, b: seq<string>)
    ensures DropEmpty(a + b) == DropEmpty(a) + DropEmpty(b)
    ensures forall p :: DropEmpty([p]) == if p == "" then [] else [p]
  {
    if a == [] {
      assert a + b == b;
    } else {
      assert (a + b)[0] == a[0] && (a + b)[1..] == a[1..] + b;
      DropEmptyConcat(a[1..], b);
    }
  }

  /** Python's `sub in s` on strings. */
  predicate Contains(s: string, sub: string)
  {
    sub <= s || (s != [] && Contains(s[1..], sub))
  }

  /** Joining the pieces of a split gives the original string back. */
  lemma {:induction false} JoinSplit(s: string, c: char)
    ensures Join(Split(s, c), c) == s
  {
    if s != [] {
      JoinSplit(s[1..], c);
      var rest := Split(s[1..], c);
      if s[0] == c {
        assert Split(s, c) == [""] + rest;
        assert Join([""] + rest, c) == "" + [c] + Join(rest, c);
        assert s == [c] + s[1..];
      } else {
        var r := Split(s, c);
        assert r == [[s[0]] + rest[0]] + rest[1..];
        if |rest| == 1 {
          assert Join(r, c) == [s[0]] + rest[0];
          assert Join(rest, c) == rest[0];
        } else {
          assert r[1..] == rest[1..];
          assert Join(r, c) == [s[0]] + rest[0] + [c] + Join(rest[1..], c);
          assert Join(rest, c) == rest[0] + [c] + Join(rest[1..], c);
        }
        assert s == [s[0]] + s[1..];
      }
    }
  }

  /** No piece of a split contains the separator. */
  lemma {:induction false} SplitPiecesFree(s: string, c: char)
    ensures forall i :: 0 <= i < |Split(s, c)| ==> c !in Split(s, c)[i]
  {
    if s != [] {
      SplitPiecesFree(s[1..], c);
    }
  }

  /** Every character of a piece comes from the split string. */
  lemma {:induction false} SplitPiecesWithin(s: string, c: char)
    ensures forall i, x | 0 <= i < |Split(s, c)| && x in Split(s, c)[i] :: x in s
  {
    if s != [] {
      SplitPiecesWithin(s[1..], c);
      var rest := Split(s[1..], c);
      assert forall x | x in s[1..] :: x in s;
      if s[0] != c {
        forall i, x | 0 <= i < |Split(s, c)| && x in Split(s, c)[i]
          ensures x in s
        {
          if i > 0 {
            assert Split(s, c)[i] == rest[i];
          } else if x != s[0] {
            assert x in rest[0];
          }
        }
      }
    }
  }

  /** Splitting a join of separator-free pieces gives the pieces back, so
      `Split` and `Join` are inverse to each other. */
  lemma {:induction false} SplitJoin(parts: seq<string>, c: char)
    requires |parts| >= 1
    requires forall i :: 0 <= i < |parts| ==> c !in parts[i]
    ensures Split(Join(parts, c), c) == parts
  {
    if |parts| == 1 {
      SplitFree(parts[0], c);
    } else {
      SplitJoin(parts[1..], c);
      SplitAfterPiece(parts[0], Join(parts[1..], c), c);
      assert Join(parts, c) == parts[0] + [c] + Join(parts[1..], c);
      assert parts == [parts[0]] + parts[1..];
    }
  }

  /** A string without the separator splits into itself alone. */
  lemma {:induction false} SplitFree(s: string, c: char)
    requires c !in s
    ensures Split(s, c) == [s]
  {
    if s != [] {
      SplitFree(s[1..], c);
      assert s == [s[0]] + s[1..];
    }
  }

  /** Splitting `a + [c] + b`, where `a` is free of `c`, gives `a` followed by
      the pieces of `b`. */
  lemma {:induction false} SplitAfterPiece(a: string, b: string, c: char)
    requires c !in a
    ensures Split(a + [c] + b, c) == [a] + Split(b, c)
  {
    if a == [] {
      assert [c] + b == a + [c] + b;
      assert ([c] + b)[1..] == b;
    } else {
      SplitAfterPiece(a[1..], b, c);
      assert (a + [c] + b)[1..] == a[1..] + [c] + b;
      assert a == [a[0]] + a[1..];
    }
  }

  /** The pieces after the first separator are exactly the pieces of the text
      that `AfterFirst` returns. */
  lemma {:induction false} SplitTail(s: string, c: char)
    requires AfterFirst(s, c).Some?
    ensures Split(s, c)[1..] == Split(AfterFirst(s, c).value, c)
  {
    var rest := Split(s[1..], c);
    if s[0] == c {
      assert Split(s, c) == [""] + rest;
    } else {
      SplitTail(s[1..], c);
      assert Split(s, c) == [[s[0]] + rest[0]] + rest[1..];
    }
  }
}
