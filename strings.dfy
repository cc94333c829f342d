/**
 * String helpers that the DAV helpers rely on, written as Python's own
 * string operations behave: `str.split` on a one-character separator,
 * `str.join`, `str.rstrip` of one character, and zero-padded decimal
 * fields as `strftime` writes them.
 */
module Strings {

  /** Python's `s.split(sep)` for a one-character `sep`: never empty, and no part holds `sep`. */
  function Split(s: string, sep: char): (parts: seq<string>)
    ensures |parts| >= 1
    ensures forall i | 0 <= i < |parts| :: sep !in parts[i]
    decreases |s|
  {
    if s == [] then [""]
    else
      var rest := Split(s[1..], sep);
      if s[0] == sep then [""] + rest
      else [[s[0]] + rest[0]] + rest[1..]
  }

  /** Python's `sep.join(parts)`. */
  function Join(parts: seq<string>, sep: char): string
  {
    if |parts| == 0 then ""
    else if |parts| == 1 then parts[0]
    else parts[0] + [sep] + Join(parts[1..], sep)
  }

  /** The last element of `s.split(sep)`, i.e. Python's `s.split(sep)[-1]`. */
  function LastSegment(s: string, sep: char): string
  {
    var parts := Split(s, sep);
    parts[|parts| - 1]
  }

  /** Python's `s.rstrip(c)` for one character `c`: the longest prefix not ending in `c`. */
  function RStrip(s: string, c: char): (r: string)
    ensures r <= s
    ensures r == [] || r[|r| - 1] != c
    ensures forall i | |r| <= i < |s| :: s[i] == c
    decreases |s|
  {
    if |s| > 0 && s[|s| - 1] == c then RStrip(s[..|s| - 1], c) else s
  }

  predicate IsDigit(ch: char) { '0' <= ch <= '9' }

  function Pow10(n: nat): (p: nat)
    ensures 0 < p
  {
    if n == 0 then 1 else 10 * Pow10(n - 1)
  }

  function DigitChar(d: nat): (ch: char)
    requires d < 10
    ensures IsDigit(ch)
  {
    ('0' as int + d) as char
  }

  /**
   * The `width` low-order decimal digits of `n`, zero-padded on the left:
   * what `%0<width>d` writes for any `n < 10^width`.
   */
  function Digits(n: nat, width: nat): (s: string)
    ensures |s| == width
    ensures forall i | 0 <= i < |s| :: IsDigit(s[i])
  {
    if width == 0 then "" else Digits(n / 10, width - 1) + [DigitChar(n % 10)]
  }

  // ---------------------------------------------------------------------
  // Split and Join are inverse to each other.

  /** Joining the parts of a split gives back the original string. */
  lemma {:induction false} JoinSplit(s: string, sep: char)
    ensures Join(Split(s, sep), sep) == s
    decreases |s|
  {
    if s != [] {
      var rest := Split(s[1..], sep);
      JoinSplit(s[1..], sep);
      if s[0] != sep && |rest| > 1 {
        assert Join(rest, sep) == rest[0] + [sep] + Join(rest[1..], sep);
        assert rest[1..][1..] == rest[2..];
      }
    }
  }

  /** A string without `sep` splits into itself alone. */
  lemma {:induction false} SplitFree(p: string, sep: char)
    requires sep !in p
    ensures Split(p, sep) == [p]
    decreases |p|
  {
    if p != [] {
      SplitFree(p[1..], sep);
      assert [p[0]] + p[1..] == p;
    }
  }

  /** Splitting `p + sep + t` with `p` free of `sep` peels `p` off as the first part. */
  lemma {:induction false} SplitCons(p: string, t: string, sep: char)
    requires sep !in p
    ensures Split(p + [sep] + t, sep) == [p] + Split(t, sep)
    decreases |p|
  {
    var s := p + [sep] + t;
    if p == [] {
      assert s[1..] == t;
    } else {
      assert s[1..] == p[1..] + [sep] + t;
      SplitCons(p[1..], t, sep);
      assert [p[0]] + p[1..] == p;
    }
  }

  /** Splitting a join of separator-free parts gives the parts back. */
  lemma {:induction false} SplitJoin(parts: seq<string>, sep: char)
    requires |parts| >= 1
    requires forall i | 0 <= i < |parts| :: sep !in parts[i]
    ensures Split(Join(parts, sep), sep) == parts
    decreases |parts|
  {
    if |parts| == 1 {
      SplitFree(parts[0], sep);
    } else {
      SplitJoin(parts[1..], sep);
      SplitCons(parts[0], Join(parts[1..], sep), sep);
    }
  }

  /** Join of two non-empty lists of parts puts one separator between the two joins. */
  lemma {:induction false} JoinAppend(a: seq<string>, b: seq<string>, sep: char)
    requires |a| >= 1 && |b| >= 1
    ensures Join(a + b, sep) == Join(a, sep) + [sep] + Join(b, sep)
    decreases |a|
  {
    if |a| > 1 {
      JoinAppend(a[1..], b, sep);
      assert (a + b)[1..] == a[1..] + b;
    } else {
      assert (a + b)[1..] == b;
    }
  }

  /** An inner part of a join stands between two separators, with the rest of the join around it. */
  lemma JoinAround(parts: seq<string>, k: nat, sep: char)
    requires 0 < k < |parts| - 1
    ensures Join(parts, sep)
         == Join(parts[..k], sep) + [sep] + parts[k] + [sep] + Join(parts[k + 1..], sep)
  {
    assert parts == parts[..k] + parts[k..];
    JoinAppend(parts[..k], parts[k..], sep);
    assert parts[k..] == [parts[k]] + parts[k + 1..];
    assert parts[k..][1..] == parts[k + 1..];
  }

  /** A join ends with its last part. */
  lemma {:induction false} JoinEndsWithLast(parts: seq<string>, sep: char)
    requires |parts| >= 1
    ensures |parts[|parts| - 1]| <= |Join(parts, sep)|
    ensures Join(parts, sep)[|Join(parts, sep)| - |parts[|parts| - 1]|..] == parts[|parts| - 1]
    decreases |parts|
  {
    if |parts| > 1 {
      JoinEndsWithLast(parts[1..], sep);
    }
  }

  /** Strings that agree around a middle piece set off by two separators agree on that piece. */
  lemma CancelAround(a: string, x: string, y: string, b: string, sep: char)
    requires a + [sep] + x + [sep] + b == a + [sep] + y + [sep] + b
    ensures x == y
  {
    var s := a + [sep] + x + [sep] + b;
    assert |x| == |y|;
    assert x == s[|a| + 1..|a| + 1 + |x|];
    assert y == (a + [sep] + y + [sep] + b)[|a| + 1..|a| + 1 + |y|];
  }

  /** Two joins of parts that differ at one inner position only are different strings. */
  lemma JoinDiffersAt(parts1: seq<string>, parts2: seq<string>, k: nat, sep: char)
    requires |parts1| == |parts2| && 0 < k < |parts1| - 1
    requires parts1[..k] == parts2[..k] && parts1[k + 1..] == parts2[k + 1..]
    requires parts1[k] != parts2[k]
    ensures Join(parts1, sep) != Join(parts2, sep)
  {
    JoinAround(parts1, k, sep);
    JoinAround(parts2, k, sep);
    if Join(parts1, sep) == Join(parts2, sep) {
      CancelAround(Join(parts1[..k], sep), parts1[k], parts2[k], Join(parts1[k + 1..], sep), sep);
    }
  }


  // ---------------------------------------------------------------------
  // The last segment of a split.

  /**
   * The last part of `s.split(sep)` is a suffix of `s` without `sep`,
   * and it is either all of `s` or preceded by `sep`.
   */
  lemma {:induction false} LastSegmentIsSuffix(s: string, sep: char)
    ensures var l := LastSegment(s, sep);
      && sep !in l
      && |l| <= |s|
      && s[|s| - |l|..] == l
      && (|l| < |s| ==> s[|s| - |l| - 1] == sep)
    decreases |s|
  {
    if s != [] {
      var rest := Split(s[1..], sep);
      LastSegmentIsSuffix(s[1..], sep);
      var l' := LastSegment(s[1..], sep);
      if s[0] == sep {
        assert LastSegment(s, sep) == l';
      } else if |rest| == 1 {
        JoinSplit(s[1..], sep);
        assert rest[0] == s[1..];
        assert [s[0]] + s[1..] == s;
      } else {
        // `s[1..]` holds a separator, so its last segment is a proper suffix of it.
        JoinSplit(s[1..], sep);
        assert Join(rest, sep) == rest[0] + [sep] + Join(rest[1..], sep);
        assert s[1..][|rest[0]|] == sep;
        assert LastSegment(s, sep) == l';
      }
    }
  }

  /**
   * The last segment is the only suffix of `s` that is free of `sep` and
   * either the whole of `s` or preceded by `sep`.
   */
  lemma LastSegmentUnique(s: string, t: string, sep: char)
    requires |t| <= |s| && s[|s| - |t|..] == t
    requires sep !in t
    requires |t| < |s| ==> s[|s| - |t| - 1] == sep
    ensures LastSegment(s, sep) == t
  {
    var l := LastSegment(s, sep);
    LastSegmentIsSuffix(s, sep);
  }

  /** A string without `sep` is its own last segment. */
  lemma LastSegmentOfFree(s: string, sep: char)
    requires sep !in s
    ensures LastSegment(s, sep) == s
  {
    LastSegmentUnique(s, s, sep);
  }

  /** Taking the last segment twice is the same as taking it once. */
  lemma LastSegmentIdempotent(s: string, sep: char)
    ensures LastSegment(LastSegment(s, sep), sep) == LastSegment(s, sep)
  {
    LastSegmentIsSuffix(s, sep);
    LastSegmentOfFree(LastSegment(s, sep), sep);
  }

  /** After a separator, a piece without separators is the last segment. */
  lemma LastSegmentAfterSep(a: string, b: string, sep: char)
    requires sep !in b
    ensures LastSegment(a + [sep] + b, sep) == b
  {
    var s := a + [sep] + b;
    assert s[|s| - |b|..] == b;
    assert s[|s| - |b| - 1] == sep;
    LastSegmentUnique(s, b, sep);
  }

  // ---------------------------------------------------------------------
  // RStrip.

  /**
   * `RStrip` is determined by its contract: a prefix that does not end
   * in `c`, followed only by `c`s.
   */
  lemma RStripUnique(s: string, r: string, c: char)
    requires r <= s
    requires r == [] || r[|r| - 1] != c
    requires forall i | |r| <= i < |s| :: s[i] == c
    ensures RStrip(s, c) == r
  {
    var q := RStrip(s, c);
  }

  /** Appending the stripped character does not change the stripped result. */
  lemma RStripAppend(s: string, c: char)
    ensures RStrip(s + [c], c) == RStrip(s, c)
  {
    var r := RStrip(s, c);
    assert r <= s + [c];
    RStripUnique(s + [c], r, c);
  }

  // ---------------------------------------------------------------------
  // Zero-padded digits.

  /** The value of a character read as a decimal digit. */
  function DigitValue(ch: char): (d: int)
    ensures IsDigit(ch) ==> 0 <= d < 10 && DigitChar(d) == ch
  {
    ch as int - '0' as int
  }

  /**
   * The number a string spells when read as decimal digits from the left:
   * each digit multiplies what was read before it by ten and adds itself.
   */
  function DecimalValue(s: string): int
  {
    if s == [] then 0 else 10 * DecimalValue(s[..|s| - 1]) + DigitValue(s[|s| - 1])
  }

  /** The zero-padded digits of a number below `10^width` spell exactly that number. */
  lemma {:induction false} DigitsValue(n: nat, width: nat)
    requires n < Pow10(width)
    ensures DecimalValue(Digits(n, width)) == n
    decreases width
  {
    if width > 0 {
      var s := Digits(n, width);
      assert s[..width - 1] == Digits(n / 10, width - 1);
      assert s[width - 1] == DigitChar(n % 10);
      DigitsValue(n / 10, width - 1);
    }
  }

  /** Distinct numbers below `10^width` have distinct zero-padded renderings. */
  lemma DigitsInjective(a: nat, b: nat, width: nat)
    requires a < Pow10(width) && b < Pow10(width)
    requires Digits(a, width) == Digits(b, width)
    ensures a == b
  {
    DigitsValue(a, width);
    DigitsValue(b, width);
  }

}
