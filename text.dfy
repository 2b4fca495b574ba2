/**
 * String helpers that stand for the small pieces of Python used throughout
 * ndlab: `str(int)`, the `%02d`, `%x` and `%02x` formats, `str.upper`,
 * `str.startswith`, `str.split`, `str.join`, and `list.sort` under Python's
 * code-point ordering of strings.
 *
 * Character classes are ASCII: Python's `\w` and `\d` also accept non-ASCII
 * letters and digits, which this model does not.
 */
module Text {

  predicate IsDigit(c: char) { '0' <= c <= '9' }
  predicate IsLower(c: char) { 'a' <= c <= 'z' }
  predicate IsUpper(c: char) { 'A' <= c <= 'Z' }
  predicate IsAlnum(c: char) { IsDigit(c) || IsLower(c) || IsUpper(c) }

  /** Python's `\w`, restricted to ASCII. */
  predicate IsWordChar(c: char) { IsAlnum(c) || c == '_' }

  predicate IsHexDigit(c: char) { IsDigit(c) || 'a' <= c <= 'f' || 'A' <= c <= 'F' }

  predicate AllDigits(s: string) { forall i :: 0 <= i < |s| ==> IsDigit(s[i]) }

  predicate NoChar(s: string, c: char) { forall i :: 0 <= i < |s| ==> s[i] != c }

  // ---------------------------------------------------------------------------
  // Decimal rendering, `str(n)`

  function DigitChar(d: nat): (c: char)
    requires d < 10
    ensures IsDigit(c)
  {
    ('0' as int + d) as char
  }

  function DigitValue(c: char): (d: nat)
    requires IsDigit(c)
    ensures d < 10
  {
    c as int - '0' as int
  }

  /** `str(n)` for a non-negative integer: decimal digits, no leading zero. */
  function NatToString(n: nat): (s: string)
    ensures |s| > 0 && AllDigits(s)
    ensures s[0] == '0' ==> n == 0
    ensures n < 10 <==> |s| == 1
  {
    if n < 10 then [DigitChar(n)] else NatToString(n / 10) + [DigitChar(n % 10)]
  }

  /** The value of a string of decimal digits. */
  function ParseDecimal(s: string): nat
    requires AllDigits(s)
  {
    if |s| == 0 then 0 else ParseDecimal(s[..|s| - 1]) * 10 + DigitValue(s[|s| - 1])
  }

  lemma {:induction false} ParseNatToString(n: nat)
    ensures ParseDecimal(NatToString(n)) == n
  {
    if n >= 10 {
      var s := NatToString(n);
      assert s[..|s| - 1] == NatToString(n / 10);
      ParseNatToString(n / 10);
    }
  }

  lemma NatToStringInjective(a: nat, b: nat)
    requires NatToString(a) == NatToString(b)
    ensures a == b
  {
    ParseNatToString(a);
    ParseNatToString(b);
  }

  /** `str(i)` for any integer. */
  function IntToString(i: int): (s: string)
    ensures |s| > 0 && NoChar(s, '/') && NoChar(s, '_')
    ensures i >= 0 ==> s == NatToString(i)
  {
    if i < 0 then "-" + NatToString(-i) else NatToString(i)
  }

  lemma IntToStringInjective(a: int, b: int)
    requires IntToString(a) == IntToString(b)
    ensures a == b
  {
    if a < 0 && b < 0 {
      assert NatToString(-a) == IntToString(a)[1..];
      NatToStringInjective(-a, -b);
    } else if a >= 0 && b >= 0 {
      NatToStringInjective(a, b);
    }
  }

  /** `f"{n:02d}"`: at least two digits, zero padded. */
  function PadTwo(n: nat): (s: string)
    ensures |s| >= 2 && AllDigits(s)
    ensures n < 100 ==> |s| == 2
  {
    if n < 10 then "0" + NatToString(n) else NatToString(n)
  }

  // ---------------------------------------------------------------------------
  // Hexadecimal rendering, `f"{n:x}"` and `f"{n:02x}"`

  /** The lower-case hexadecimal digit of `d`. */
  function HexDigit(d: nat): (c: char)
    requires d < 16
    ensures IsHexDigit(c) && !IsUpper(c)
  {
    if d < 10 then DigitChar(d) else ('a' as int + d - 10) as char
  }

  function HexValue(c: char): nat
    requires IsHexDigit(c)
  {
    if IsDigit(c) then DigitValue(c)
    else if 'a' <= c <= 'f' then c as int - 'a' as int + 10
    else c as int - 'A' as int + 10
  }

  /** `f"{n:x}"`: lower-case hexadecimal, no leading zero. */
  function HexLower(n: nat): (s: string)
    ensures |s| > 0 && forall i :: 0 <= i < |s| ==> IsHexDigit(s[i])
    ensures n < 16 <==> |s| == 1
  {
    if n < 16 then [HexDigit(n)] else HexLower(n / 16) + [HexDigit(n % 16)]
  }

  /** `f"{n:02x}"`. */
  function HexTwo(n: nat): (s: string)
    ensures |s| >= 2
    ensures n < 256 ==> |s| == 2
  {
    if n < 16 then "0" + HexLower(n) else HexLower(n)
  }

  lemma HexDigitValue(d: nat)
    requires d < 16
    ensures HexValue(HexDigit(d)) == d
    ensures IsHexDigit(UpperChar(HexDigit(d))) && HexValue(UpperChar(HexDigit(d))) == d
  {
  }

  /** Below 256, `f"{n:02x}"` is the two hexadecimal digits of `n`, which read back as `n`. */
  lemma HexTwoDigits(n: nat)
    requires n < 256
    ensures HexTwo(n) == [HexDigit(n / 16), HexDigit(n % 16)]
    ensures HexValue(HexTwo(n)[0]) * 16 + HexValue(HexTwo(n)[1]) == n
  {
    HexDigitValue(n / 16);
    HexDigitValue(n % 16);
    if n < 16 {
      assert HexDigit(0) == '0';
      assert HexTwo(n) == "0" + [HexDigit(n)];
    } else {
      assert HexLower(n / 16) == [HexDigit(n / 16)];
    }
  }

  // ---------------------------------------------------------------------------
  // `str.upper`, `str.startswith`, `str.split`, `str.join`

  function UpperChar(c: char): char {
    if IsLower(c) then (c as int - 32) as char else c
  }

  /** `str.upper` on ASCII letters; every other character is kept. */
  function ToUpper(s: string): (r: string)
    ensures |r| == |s|
    ensures forall i :: 0 <= i < |s| ==> r[i] == UpperChar(s[i])
  {
    seq(|s|, i requires 0 <= i < |s| => UpperChar(s[i]))
  }

  predicate StartsWith(s: string, prefix: string) {
    |prefix| <= |s| && s[..|prefix|] == prefix
  }

  /** Index of the first `c` in `s`, or `|s|` when there is none. */
  function IndexOf(s: string, c: char): (i: nat)
    ensures i <= |s|
    ensures i < |s| ==> s[i] == c
    ensures NoChar(s[..i], c)
  {
    if |s| == 0 then 0
    else if s[0] == c then 0
    else
      var j := IndexOf(s[1..], c);
      assert s[..j + 1] == [s[0]] + s[1..][..j];
      j + 1
  }

  /** The first `c` in `x + [c] + y` is the one after `x` when `x` has none. */
  lemma {:induction false} IndexOfAfterPrefix(x: string, c: char, y: string)
    requires NoChar(x, c)
    ensures IndexOf(x + [c] + y, c) == |x|
  {
    if |x| > 0 {
      assert (x + [c] + y)[1..] == x[1..] + [c] + y;
      IndexOfAfterPrefix(x[1..], c, y);
    }
  }

  lemma {:induction false} IndexOfAtMost(s: string, c: char, k: nat)
    requires k < |s| && s[k] == c
    ensures IndexOf(s, c) <= k
  {
    if s[0] != c {
      IndexOfAtMost(s[1..], c, k - 1);
    }
  }

  /** `s.split(c)` for a one-character separator. */
  function Split(s: string, c: char): (r: seq<string>)
    ensures |r| > 0
    ensures forall k :: 0 <= k < |r| ==> NoChar(r[k], c)
    ensures NoChar(s, c) ==> r == [s]
    decreases |s|
  {
    var i := IndexOf(s, c);
    if i == |s| then [s] else [s[..i]] + Split(s[i + 1..], c)
  }

  /** A prefix without `c`, then `c`: the prefix is the first piece. */
  lemma SplitCons(a: string, c: char, rest: string)
    requires NoChar(a, c)
    ensures Split(a + [c] + rest, c) == [a] + Split(rest, c)
  {
    var s := a + [c] + rest;
    IndexOfAfterPrefix(a, c, rest);
    assert s[..|a|] == a && s[|a| + 1..] == rest;
  }

  /** The text after the last `c` is the last piece. */
  lemma {:induction false} SplitLast(s: string, c: char, e: string)
    requires NoChar(e, c)
    ensures var parts := Split(s + [c] + e, c); parts[|parts| - 1] == e
    decreases |s|
  {
    var x := s + [c] + e;
    var i := IndexOf(x, c);
    IndexOfAtMost(x, c, |s|);
    assert x[..i] == s[..i];
    if i == |s| {
      assert x[i + 1..] == e;
    } else {
      assert x[i + 1..] == s[i + 1..] + [c] + e;
      SplitLast(s[i + 1..], c, e);
    }
  }

  /** `sep.join(parts)`. */
  function Join(sep: string, parts: seq<string>): string {
    if |parts| == 0 then ""
    else if |parts| == 1 then parts[0]
    else Join(sep, parts[..|parts| - 1]) + sep + parts[|parts| - 1]
  }

  /** Joining what `Split` cut reproduces the string. */
  lemma {:induction false} JoinSplit(s: string, c: char)
    ensures Join([c], Split(s, c)) == s
    decreases |s|
  {
    var i := IndexOf(s, c);
    if i < |s| {
      var rest := s[i + 1..];
      SplitUnfold(s, c);
      JoinSplit(rest, c);
      JoinCons([c], s[..i], Split(rest, c));
      SliceAround(s, i);
    }
  }

  /** A string is what comes before position `i`, the character there, and what follows. */
  lemma SliceAround(s: string, i: nat)
    requires i < |s|
    ensures s == s[..i] + [s[i]] + s[i + 1..]
  {
  }

  /** One step of `Split`: the piece before the first `c`, then the split of the rest. */
  lemma SplitUnfold(s: string, c: char)
    requires IndexOf(s, c) < |s|
    ensures Split(s, c) == [s[..IndexOf(s, c)]] + Split(s[IndexOf(s, c) + 1..], c)
  {
  }

  lemma {:induction false} JoinCons(sep: string, head: string, tail: seq<string>)
    requires |tail| > 0
    ensures Join(sep, [head] + tail) == head + sep + Join(sep, tail)
    decreases |tail|
  {
    var parts := [head] + tail;
    if |tail| > 1 {
      assert parts[..|parts| - 1] == [head] + tail[..|tail| - 1];
      JoinCons(sep, head, tail[..|tail| - 1]);
    } else {
      assert parts[..|parts| - 1] == [head];
    }
  }

  // ---------------------------------------------------------------------------
  // Python's ordering of strings and `list.sort`

  /** `a <= b` on Python strings: lexicographic on code points. */
  predicate StrLe(a: string, b: string)
    decreases |a|
  {
    |a| == 0 || (|b| > 0 && (a[0] < b[0] || (a[0] == b[0] && StrLe(a[1..], b[1..]))))
  }

  lemma {:induction false} StrLeTotal(a: string, b: string)
    ensures StrLe(a, b) || StrLe(b, a)
    decreases |a|
  {
    if |a| > 0 && |b| > 0 && a[0] == b[0] {
      StrLeTotal(a[1..], b[1..]);
    }
  }

  lemma {:induction false} StrLeTransitive(a: string, b: string, c: string)
    requires StrLe(a, b) && StrLe(b, c)
    ensures StrLe(a, c)
    decreases |a|
  {
    if |a| > 0 && |b| > 0 && |c| > 0 && a[0] == b[0] && b[0] == c[0] {
      StrLeTransitive(a[1..], b[1..], c[1..]);
    }
  }

  lemma {:induction false} StrLeAntisymmetric(a: string, b: string)
    requires StrLe(a, b) && StrLe(b, a)
    ensures a == b
    decreases |a|
  {
    if |a| > 0 {
      StrLeAntisymmetric(a[1..], b[1..]);
      assert a == [a[0]] + a[1..] && b == [b[0]] + b[1..];
    }
  }

  predicate SortedBy<T>(s: seq<T>, key: T -> string) {
    forall i, j :: 0 <= i < j < |s| ==> StrLe(key(s[i]), key(s[j]))
  }

  /** Inserts `x` in front of the first element whose key is not below it. */
  function InsertBy<T>(x: T, s: seq<T>, key: T -> string): seq<T> {
    if |s| == 0 then [x]
    else if StrLe(key(x), key(s[0])) then [x] + s
    else [s[0]] + InsertBy(x, s[1..], key)
  }

  lemma {:induction false} InsertByMultiset<T>(x: T, s: seq<T>, key: T -> string)
    ensures multiset(InsertBy(x, s, key)) == multiset(s) + multiset{x}
  {
    if |s| > 0 && !StrLe(key(x), key(s[0])) {
      InsertByMultiset(x, s[1..], key);
      assert s == [s[0]] + s[1..];
    }
  }

  predicate LowerBound<T>(k: string, s: seq<T>, key: T -> string) {
    forall j :: 0 <= j < |s| ==> StrLe(k, key(s[j]))
  }

  lemma {:induction false} InsertByLowerBound<T>(k: string, x: T, s: seq<T>, key: T -> string)
    requires StrLe(k, key(x)) && LowerBound(k, s, key)
    ensures LowerBound(k, InsertBy(x, s, key), key)
  {
    if |s| > 0 && !StrLe(key(x), key(s[0])) {
      InsertByLowerBound(k, x, s[1..], key);
    }
  }

  lemma SortedCons<T>(a: T, r: seq<T>, key: T -> string)
    requires LowerBound(key(a), r, key) && SortedBy(r, key)
    ensures SortedBy([a] + r, key)
  {
    var t := [a] + r;
    forall i, j | 0 <= i < j < |t| ensures StrLe(key(t[i]), key(t[j])) {
      if i > 0 {
        assert t[i] == r[i - 1] && t[j] == r[j - 1];
      } else {
        assert t[j] == r[j - 1];
      }
    }
  }

  lemma {:induction false} InsertBySorted<T>(x: T, s: seq<T>, key: T -> string)
    requires SortedBy(s, key)
    ensures SortedBy(InsertBy(x, s, key), key)
  {
    if |s| == 0 {
    } else if StrLe(key(x), key(s[0])) {
      forall j | 0 <= j < |s| ensures StrLe(key(x), key(s[j])) {
        if j > 0 {
          StrLeTransitive(key(x), key(s[0]), key(s[j]));
        }
      }
      SortedCons(x, s, key);
    } else {
      StrLeTotal(key(x), key(s[0]));
      assert SortedBy(s[1..], key) by {
        forall i, j | 0 <= i < j < |s[1..]| ensures StrLe(key(s[1..][i]), key(s[1..][j])) {
          assert s[1..][i] == s[i + 1] && s[1..][j] == s[j + 1];
        }
      }
      InsertBySorted(x, s[1..], key);
      assert LowerBound(key(s[0]), s[1..], key) by {
        forall j | 0 <= j < |s[1..]| ensures StrLe(key(s[0]), key(s[1..][j])) {
          assert s[1..][j] == s[j + 1];
        }
      }
      InsertByLowerBound(key(s[0]), x, s[1..], key);
      SortedCons(s[0], InsertBy(x, s[1..], key), key);
    }
  }

  lemma MultisetCons<T>(s: seq<T>)
    requires |s| > 0
    ensures multiset(s) == multiset{s[0]} + multiset(s[1..])
  {
    assert s == [s[0]] + s[1..];
  }

  /** `sorted(s, key=key)`: a stable insertion sort. */
  function SortBy<T>(s: seq<T>, key: T -> string): (r: seq<T>)
    ensures multiset(r) == multiset(s)
    ensures SortedBy(r, key)
  {
    if |s| == 0 then []
    else
      var rest := SortBy(s[1..], key);
      InsertBySorted(s[0], rest, key);
      InsertByMultiset(s[0], rest, key);
      MultisetCons(s);
      InsertBy(s[0], rest, key)
  }

  function Identity(s: string): string { s }

  predicate SortedStrings(a: seq<string>) {
    forall i, j :: 0 <= i < j < |a| ==> StrLe(a[i], a[j])
  }

  /** `sorted(s)` for a list of strings. */
  function SortStrings(s: seq<string>): (r: seq<string>)
    ensures multiset(r) == multiset(s)
    ensures SortedStrings(r)
  {
    SortBy(s, Identity)
  }

  lemma SortedHeadIsLeast(a: seq<string>, x: string)
    requires SortedStrings(a)
    requires x in a
    ensures StrLe(a[0], x)
  {
    var i :| 0 <= i < |a| && a[i] == x;
    if i == 0 {
      StrLeTotal(x, x);
    }
  }

  lemma SortedTail(a: seq<string>)
    requires |a| > 0 && SortedStrings(a)
    ensures SortedStrings(a[1..])
  {
    forall i, j | 0 <= i < j < |a| - 1
      ensures StrLe(a[1..][i], a[1..][j])
    {
      assert a[1..][i] == a[i + 1] && a[1..][j] == a[j + 1];
    }
  }

  lemma SameHeadTail<T>(a: seq<T>, b: seq<T>)
    requires |a| > 0 && |b| > 0 && a[0] == b[0] && a[1..] == b[1..]
    ensures a == b
  {
    assert a == [a[0]] + a[1..] && b == [b[0]] + b[1..];
  }

  /** Two sorted lists holding the same strings are the same list. */
  lemma {:induction false} SortedUnique(a: seq<string>, b: seq<string>)
    requires multiset(a) == multiset(b)
    requires SortedStrings(a) && SortedStrings(b)
    ensures a == b
    decreases |a|
  {
    assert |a| == |multiset(a)| == |b|;
    if |a| > 0 {
      assert a[0] in multiset(b) && b[0] in multiset(a);
      SortedHeadIsLeast(b, a[0]);
      SortedHeadIsLeast(a, b[0]);
      StrLeAntisymmetric(a[0], b[0]);
      MultisetCons(a);
      MultisetCons(b);
      assert multiset(a[1..]) == multiset(a) - multiset{a[0]};
      assert multiset(b[1..]) == multiset(b) - multiset{a[0]};
      SortedTail(a);
      SortedTail(b);
      SortedUnique(a[1..], b[1..]);
      SameHeadTail(a, b);
    }
  }
}
