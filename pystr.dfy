/**
 * The pieces of Python's built-in `str` that the blog's tag parsing relies on:
 * `str.isspace()` (the characters `str.strip()` removes when given no
 * argument), `str.strip()`, `str.split(sep)` with an explicit one-character
 * separator, and `sep.join(parts)` as its inverse.
 *
 * A Python `str` is a sequence of code points; here it is a Dafny `string`,
 * whose `char` is a Unicode scalar value.
 */
module PyStr {

  /** The code points for which Python's `str.isspace()` is true. */
  predicate IsSpace(c: char) {
    || ('\U{9}' <= c <= '\U{D}')       // \t \n \v \f \r
    || ('\U{1C}' <= c <= '\U{1F}')     // file, group, record and unit separators
    || c == ' '
    || c == '\U{85}'                   // next line
    || c == '\U{A0}'                   // no-break space
    || c == '\U{1680}'                 // ogham space mark
    || ('\U{2000}' <= c <= '\U{200A}') // en quad .. hair space
    || c == '\U{2028}' || c == '\U{2029}'
    || c == '\U{202F}' || c == '\U{205F}' || c == '\U{3000}'
  }

  predicate AllSpace(s: string) {
    forall k :: 0 <= k < |s| ==> IsSpace(s[k])
  }

  /** A string that `strip()` leaves alone: empty, or bounded by non-space. */
  predicate IsStripped(s: string) {
    s == [] || (!IsSpace(s[0]) && !IsSpace(s[|s| - 1]))
  }

  /** `r` is an infix of `s` with nothing but whitespace before and after it. */
  ghost predicate IsTrimmedInfix(s: string, r: string) {
    exists i, j :: 0 <= i <= j <= |s| && r == s[i..j] && AllSpace(s[..i]) && AllSpace(s[j..])
  }

  /**
   * The bounds of `s[lo..hi]` with its leading and trailing whitespace
   * removed: only spaces before `b.0` and from `b.1` on, and when something
   * is left, it starts and ends with a non-space.
   */
  function StripBounds(s: string, lo: nat, hi: nat): (b: (nat, nat))
    requires lo <= hi <= |s|
    ensures lo <= b.0 <= b.1 <= hi
    ensures forall k :: lo <= k < b.0 ==> IsSpace(s[k])
    ensures forall k :: b.1 <= k < hi ==> IsSpace(s[k])
    ensures b.0 < b.1 ==> !IsSpace(s[b.0]) && !IsSpace(s[b.1 - 1])
    decreases hi - lo
  {
    if lo < hi && IsSpace(s[lo]) then StripBounds(s, lo + 1, hi)
    else if lo < hi && IsSpace(s[hi - 1]) then StripBounds(s, lo, hi - 1)
    else (lo, hi)
  }

  /**
   * `str.strip()`: `s` with its leading and trailing whitespace removed.
   * The result is an infix of `s` with only whitespace around it, and it is
   * stripped itself. (Python strips the front first; the result is the same.)
   */
  function Strip(s: string): (r: string)
    ensures IsStripped(r)
    ensures IsTrimmedInfix(s, r)
  {
    var b := StripBounds(s, 0, |s|);
    assert AllSpace(s[..b.0]) by {
      forall k | 0 <= k < b.0 ensures IsSpace(s[..b.0][k]) {
        assert s[..b.0][k] == s[k];
      }
    }
    assert AllSpace(s[b.1..]) by {
      forall k | 0 <= k < |s| - b.1 ensures IsSpace(s[b.1..][k]) {
        assert s[b.1..][k] == s[b.1 + k];
      }
    }
    s[b.0..b.1]
  }

  lemma AllSpaceCons(c: char, t: string)
    ensures AllSpace([c] + t) <==> IsSpace(c) && AllSpace(t)
  {
    var u := [c] + t;
    assert u[0] == c;
    assert forall k :: 0 <= k < |t| ==> u[k + 1] == t[k];
    if IsSpace(c) && AllSpace(t) {
      forall k | 0 < k < |u| ensures IsSpace(u[k]) {
        assert u[k] == t[k - 1];
      }
    }
  }

  /**
   * The result of `strip()` is determined by the margins: any stripped infix
   * of `s` with only whitespace around it is `Strip(s)`.
   */
  lemma {:induction false} StripUnique(s: string, i: nat, j: nat)
    requires i <= j <= |s|
    requires AllSpace(s[..i]) && AllSpace(s[j..]) && IsStripped(s[i..j])
    ensures Strip(s) == s[i..j]
  {
    var r := Strip(s);
    assert IsTrimmedInfix(s, r);
    var i', j' :| 0 <= i' <= j' <= |s| && r == s[i'..j'] && AllSpace(s[..i']) && AllSpace(s[j'..]);
    MarginsAgree(s, i, j, i', j');
  }

  /** Two whitespace-margined stripped infixes of one string are the same infix (or both empty). */
  lemma MarginsAgree(s: string, i: nat, j: nat, i': nat, j': nat)
    requires i <= j <= |s| && i' <= j' <= |s|
    requires AllSpace(s[..i]) && AllSpace(s[j..]) && IsStripped(s[i..j])
    requires AllSpace(s[..i']) && AllSpace(s[j'..]) && IsStripped(s[i'..j'])
    ensures s[i..j] == s[i'..j']
  {
    if i < j {
      assert !IsSpace(s[i]) && !IsSpace(s[j - 1]);
    }
    if i' < j' {
      assert !IsSpace(s[i']) && !IsSpace(s[j' - 1]);
    }
  }

  /** A stripped string is its own strip. */
  lemma StripOfStripped(s: string)
    requires IsStripped(s)
    ensures Strip(s) == s
  {
    assert s[..0] == [] && s[|s|..] == [] && s[0..|s|] == s;
    StripUnique(s, 0, |s|);
  }

  /** `strip()` is idempotent. */
  lemma StripIdempotent(s: string)
    ensures Strip(Strip(s)) == Strip(s)
  {
    StripOfStripped(Strip(s));
  }

  /** `strip()` yields the empty string exactly for all-whitespace input. */
  lemma StripEmptyIff(s: string)
    ensures Strip(s) == [] <==> AllSpace(s)
  {
    if AllSpace(s) {
      assert s[..0] == [] && s[0..0] == [];
      StripUnique(s, 0, 0);
    }
    if Strip(s) == [] {
      assert IsTrimmedInfix(s, Strip(s));
      var i, j :| 0 <= i <= j <= |s| && Strip(s) == s[i..j] && AllSpace(s[..i]) && AllSpace(s[j..]);
      forall k | 0 <= k < |s| ensures IsSpace(s[k]) {
        if k < i { assert s[..i][k] == s[k]; } else { assert s[j..][k - j] == s[k]; }
      }
    }
  }

  /** Every character `strip()` keeps was in its input. */
  lemma StripKeepsOnlyInputChars(s: string, c: char)
    requires c in Strip(s)
    ensures c in s
  {
    assert IsTrimmedInfix(s, Strip(s));
    var i, j :| 0 <= i <= j <= |s| && Strip(s) == s[i..j] && AllSpace(s[..i]) && AllSpace(s[j..]);
    var k :| 0 <= k < |s[i..j]| && s[i..j][k] == c;
    assert s[i + k] == c;
  }

  /** Number of occurrences of `c` in `s`. */
  function Count(s: string, c: char): nat {
    if s == [] then 0 else (if s[0] == c then 1 else 0) + Count(s[1..], c)
  }

  /**
   * `s.split(sep)`: the maximal runs of `s` between occurrences of `sep`,
   * one more piece than there are separators (so `"".split(",") == [""]`),
   * none of them containing `sep`.
   */
  function Split(s: string, sep: char): (r: seq<string>)
    ensures |r| == Count(s, sep) + 1
    ensures forall k :: 0 <= k < |r| ==> sep !in r[k]
  {
    if s == [] then [[]]
    else
      var rest := Split(s[1..], sep);
      if s[0] == sep then [[]] + rest
      else [[s[0]] + rest[0]] + rest[1..]
  }

  /** `sep.join(parts)` for a one-character separator. */
  function Join(parts: seq<string>, sep: char): string {
    if parts == [] then []
    else if |parts| == 1 then parts[0]
    else parts[0] + [sep] + Join(parts[1..], sep)
  }

  /** Joining the pieces of a split with the same separator gives back the input. */
  lemma {:induction false} JoinSplit(s: string, sep: char)
    ensures Join(Split(s, sep), sep) == s
  {
    if s != [] {
      var rest := Split(s[1..], sep);
      JoinSplit(s[1..], sep);
      if s[0] != sep {
        var r := Split(s, sep);
        assert r[0] == [s[0]] + rest[0] && r[1..] == rest[1..];
        if |rest| > 1 {
          assert Join(rest, sep) == rest[0] + [sep] + Join(rest[1..], sep);
        }
      } else {
        assert s == [s[0]] + s[1..];
      }
    }
  }

  /** Splitting a join of separator-free parts gives back the parts. */
  lemma {:induction false} SplitJoin(parts: seq<string>, sep: char)
    requires |parts| > 0
    requires forall k :: 0 <= k < |parts| ==> sep !in parts[k]
    ensures Split(Join(parts, sep), sep) == parts
  {
    if |parts| == 1 {
      SplitNoSeparator(parts[0], sep);
    } else {
      SplitJoin(parts[1..], sep);
      SplitConcat(parts[0], Join(parts[1..], sep), sep);
      SplitNoSeparator(parts[0], sep);
      assert parts == [parts[0]] + parts[1..];
    }
  }

  /** A string without the separator is a single piece. */
  lemma {:induction false} SplitNoSeparator(s: string, sep: char)
    requires sep !in s
    ensures Split(s, sep) == [s]
  {
    if s != [] {
      assert sep !in s[1..];
      SplitNoSeparator(s[1..], sep);
      assert s == [s[0]] + s[1..];
    }
  }

  /** Splitting at a separator splits the pieces of each side apart. */
  lemma {:induction false} SplitConcat(a: string, b: string, sep: char)
    ensures Split(a + [sep] + b, sep) == Split(a, sep) + Split(b, sep)
  {
    if a == [] {
      assert a + [sep] + b == [sep] + b;
      assert ([sep] + b)[1..] == b;
    } else {
      var s := a + [sep] + b;
      assert s[0] == a[0];
      assert s[1..] == a[1..] + [sep] + b;
      SplitConcat(a[1..], b, sep);
    }
  }
}
