/** String and sequence helpers shared by the styling and table modules:
    PHP's `implode`, `explode`-style splitting, decimal rendering of codes,
    and the "append if not already present" deduplication used by both
    `setOption` and the table's header and column lists. */
module Text {

  /** No element occurs twice. */
  predicate NoDups<T(==)>(s: seq<T>) {
    forall i, j :: 0 <= i < j < |s| ==> s[i] != s[j]
  }

  /** `n` copies of `c`. */
  function Repeat(c: char, n: nat): (r: string)
    ensures |r| == n
    ensures forall i :: 0 <= i < n ==> r[i] == c
  {
    if n == 0 then "" else Repeat(c, n - 1) + [c]
  }

  /** Prepending one more copy is the same as appending it. */
  lemma RepeatCons(c: char, n: nat)
    ensures [c] + Repeat(c, n) == Repeat(c, n + 1)
  {
    assert forall i :: 0 <= i < n + 1 ==> ([c] + Repeat(c, n))[i] == c;
  }

  /** PHP `implode(sep, parts)`. */
  function Join(parts: seq<string>, sep: string): string
  {
    if |parts| == 0 then ""
    else if |parts| == 1 then parts[0]
    else parts[0] + sep + Join(parts[1..], sep)
  }

  /** The first part is a prefix of the join. */
  lemma JoinStartsWithFirst(parts: seq<string>, sep: string)
    requires |parts| > 0
    ensures |Join(parts, sep)| >= |parts[0]|
    ensures Join(parts, sep)[..|parts[0]|] == parts[0]
  {
    if |parts| > 1 {
      assert Join(parts, sep) == parts[0] + (sep + Join(parts[1..], sep));
    }
  }

  /** PHP `implode('', parts)`. */
  function Concat(parts: seq<string>): string
  {
    if |parts| == 0 then "" else parts[0] + Concat(parts[1..])
  }

  lemma ConcatSingle(part: string)
    ensures Concat([part]) == part
  {
    assert [part][1..] == [];
  }

  lemma {:induction false} ConcatAppend(parts: seq<string>, last: string)
    ensures Concat(parts + [last]) == Concat(parts) + last
    decreases |parts|
  {
    if |parts| == 0 {
      assert parts + [last] == [last];
    } else {
      assert (parts + [last])[1..] == parts[1..] + [last];
      ConcatAppend(parts[1..], last);
    }
  }

  /** A concatenation splits at any piece boundary. */
  lemma {:induction false} ConcatSplit(parts: seq<string>, k: nat)
    requires k <= |parts|
    ensures Concat(parts) == Concat(parts[..k]) + Concat(parts[k..])
    decreases k
  {
    if k == 0 {
      assert parts[k..] == parts;
    } else {
      ConcatSplit(parts[1..], k - 1);
      assert parts[..k][1..] == parts[1..][..k - 1];
      assert parts[1..][k - 1..] == parts[k..];
    }
  }

  /** The last character of piece k-1 sits just before the boundary after
      the first k pieces. */
  lemma ConcatBoundary(parts: seq<string>, k: nat)
    requires 0 < k <= |parts| && |parts[k - 1]| > 0
    ensures |parts[k - 1]| <= |Concat(parts[..k])| <= |Concat(parts)|
    ensures Concat(parts)[|Concat(parts[..k])| - 1] == parts[k - 1][|parts[k - 1]| - 1]
  {
    ConcatSplit(parts, k);
    assert parts[..k] == parts[..k - 1] + [parts[k - 1]];
    ConcatAppend(parts[..k - 1], parts[k - 1]);
  }

  /** A character absent from every piece is absent from the concatenation. */
  lemma {:induction false} ConcatExcludes(parts: seq<string>, c: char)
    requires forall i :: 0 <= i < |parts| ==> c !in parts[i]
    ensures c !in Concat(parts)
    decreases |parts|
  {
    if |parts| > 0 {
      ConcatExcludes(parts[1..], c);
    }
  }

  /** Two concatenations whose pieces agree in length agree in length,
      and so do all their prefixes: piece boundaries line up. */
  lemma {:induction false} ConcatPrefixLengths(a: seq<string>, b: seq<string>)
    requires |a| == |b|
    requires forall i :: 0 <= i < |a| ==> |a[i]| == |b[i]|
    ensures forall k :: 0 <= k <= |a| ==> |Concat(a[..k])| == |Concat(b[..k])|
    decreases |a|
  {
    forall k | 0 <= k <= |a|
      ensures |Concat(a[..k])| == |Concat(b[..k])|
    {
      ConcatPrefixLength(a, b, k);
    }
  }

  /** Where piece k ends in a line made of a one-character opener followed
      by the concatenated pieces: the index of the character closing piece k. */
  function Boundary(parts: seq<string>, k: nat): nat
    requires k <= |parts|
  {
    |Concat(parts[..k])|
  }

  /** Two lines built from an opener and pieces of pairwise equal length,
      piece i of each ending in a fixed character, have equal length and
      carry their closing characters at the same positions. */
  lemma PiecesAlign(a: seq<string>, b: seq<string>, opena: char, openb: char, closea: char, closeb: char)
    requires |a| == |b|
    requires forall i :: 0 <= i < |a| ==> |a[i]| == |b[i]| && |a[i]| > 0
    requires forall i :: 0 <= i < |a| ==> a[i][|a[i]| - 1] == closea && b[i][|b[i]| - 1] == closeb
    ensures |[opena] + Concat(a)| == |[openb] + Concat(b)|
    ensures forall k :: 0 < k <= |a| ==> Boundary(a, k) == Boundary(b, k) < |[opena] + Concat(a)|
    ensures forall k :: 0 < k <= |a| ==>
              ([opena] + Concat(a))[Boundary(a, k)] == closea && ([openb] + Concat(b))[Boundary(b, k)] == closeb
  {
    ConcatPrefixLengths(a, b);
    assert a[..|a|] == a && b[..|b|] == b;
    forall k | 0 < k <= |a|
      ensures Boundary(a, k) == Boundary(b, k) < |[opena] + Concat(a)|
      ensures ([opena] + Concat(a))[Boundary(a, k)] == closea && ([openb] + Concat(b))[Boundary(b, k)] == closeb
    {
      ConcatBoundary(a, k);
      ConcatBoundary(b, k);
    }
  }

  lemma {:induction false} ConcatPrefixLength(a: seq<string>, b: seq<string>, k: nat)
    requires |a| == |b| && k <= |a|
    requires forall i :: 0 <= i < |a| ==> |a[i]| == |b[i]|
    ensures |Concat(a[..k])| == |Concat(b[..k])|
    decreases k
  {
    if k > 0 {
      ConcatPrefixLength(a, b, k - 1);
      assert a[..k] == a[..k - 1] + [a[k - 1]];
      assert b[..k] == b[..k - 1] + [b[k - 1]];
      ConcatAppend(a[..k - 1], a[k - 1]);
      ConcatAppend(b[..k - 1], b[k - 1]);
    }
  }

  // ---------------------------------------------------------------------
  // Searching and splitting

  /** Position of the first occurrence of `x`. */
  function IndexOf<T(==)>(s: seq<T>, x: T): (k: nat)
    requires x in s
    ensures k < |s| && s[k] == x && x !in s[..k]
  {
    if s[0] == x then 0 else 1 + IndexOf(s[1..], x)
  }

  lemma IndexOfAfterPrefix<T>(a: seq<T>, x: T, b: seq<T>)
    requires x !in a
    ensures x in a + [x] + b
    ensures IndexOf(a + [x] + b, x) == |a|
  {
    var s := a + [x] + b;
    assert s[..|a|] == a;
    assert s[|a|] == x;
  }

  /** Splits `s` at every `sep`; the inverse of `Join(_, [sep])`. */
  function Split(s: string, sep: char): (parts: seq<string>)
    ensures |parts| >= 1
    ensures forall i :: 0 <= i < |parts| ==> sep !in parts[i]
    decreases |s|
  {
    if sep in s then
      var k := IndexOf(s, sep);
      [s[..k]] + Split(s[k + 1..], sep)
    else
      [s]
  }

  /** Splitting a join of separator-free pieces gives the pieces back. */
  lemma {:induction false} SplitJoin(parts: seq<string>, sep: char)
    requires |parts| >= 1
    requires forall i :: 0 <= i < |parts| ==> sep !in parts[i]
    ensures Split(Join(parts, [sep]), sep) == parts
    decreases |parts|
  {
    if |parts| > 1 {
      var rest := Join(parts[1..], [sep]);
      var s := Join(parts, [sep]);
      assert s == parts[0] + [sep] + rest;
      IndexOfAfterPrefix(parts[0], sep, rest);
      assert s[..|parts[0]|] == parts[0];
      assert s[|parts[0]| + 1..] == rest;
      SplitJoin(parts[1..], sep);
    }
  }

  /** Joining the pieces of a split gives the string back. */
  lemma {:induction false} JoinSplit(s: string, sep: char)
    ensures Join(Split(s, sep), [sep]) == s
    decreases |s|
  {
    if sep in s {
      var k := IndexOf(s, sep);
      var rest := Split(s[k + 1..], sep);
      JoinSplit(s[k + 1..], sep);
      var parts := [s[..k]] + rest;
      assert Split(s, sep) == parts;
      assert parts[0] == s[..k] && parts[1..] == rest && |parts| > 1;
      assert Join(parts, [sep]) == s[..k] + [sep] + Join(rest, [sep]);
      assert s == s[..k] + [sep] + s[k + 1..];
    } else {
      assert Split(s, sep) == [s];
    }
  }

  /** Position of the last occurrence of `x`. */
  function LastIndexOf<T(==)>(s: seq<T>, x: T): (k: nat)
    requires x in s
    ensures k < |s| && s[k] == x && x !in s[k + 1..]
    decreases |s|
  {
    if s[|s| - 1] == x then |s| - 1
    else
      assert x in s[..|s| - 1] by {
        var i :| 0 <= i < |s| && s[i] == x;
        assert s[..|s| - 1][i] == x;
      }
      var k := LastIndexOf(s[..|s| - 1], x);
      assert s[k + 1..] == s[..|s| - 1][k + 1..] + [s[|s| - 1]];
      k
  }

  lemma LastIndexOfBeforeSuffix<T>(a: seq<T>, x: T, b: seq<T>)
    requires x !in b
    ensures x in a + [x] + b
    ensures LastIndexOf(a + [x] + b, x) == |a|
  {
    var s := a + [x] + b;
    assert s[|a|] == x;
    assert s[|a| + 1..] == b;
  }

  /** `s` with the first occurrence of `x` removed, if there is one
      (PHP `array_search` followed by `unset`). */
  function RemoveFirst<T(==)>(s: seq<T>, x: T): (r: seq<T>)
    ensures x !in s ==> r == s
    ensures x in s ==> |r| == |s| - 1
    ensures NoDups(s) ==> NoDups(r) && x !in r
    ensures forall i :: 0 <= i < |r| ==> r[i] in s
    ensures forall i :: 0 <= i < |s| && s[i] != x ==> s[i] in r
    ensures x in s ==> exists k :: 0 <= k < |s| && s[k] == x && x !in s[..k] && r == s[..k] + s[k + 1..]
  {
    if x in s then
      var k := IndexOf(s, x);
      assert forall i :: 0 <= i < |s| && i != k ==> s[i] in s[..k] + s[k + 1..] by {
        forall i | 0 <= i < |s| && i != k
          ensures s[i] in s[..k] + s[k + 1..]
        {
          if i < k { assert (s[..k] + s[k + 1..])[i] == s[i]; }
          else { assert (s[..k] + s[k + 1..])[i - 1] == s[i]; }
        }
      }
      s[..k] + s[k + 1..]
    else
      s
  }

  // ---------------------------------------------------------------------
  // Decimal numerals (PHP's int-to-string conversion for non-negative ints)

  predicate IsDigit(c: char) {
    '0' <= c <= '9'
  }

  predicate AllDigits(s: string) {
    forall i :: 0 <= i < |s| ==> IsDigit(s[i])
  }

  function DigitChar(d: nat): (c: char)
    requires d < 10
    ensures IsDigit(c)
  {
    "0123456789"[d]
  }

  function DigitValue(c: char): (d: nat)
    requires IsDigit(c)
    ensures d < 10
  {
    (c as int) - ('0' as int)
  }

  lemma DigitRoundTrip(d: nat)
    requires d < 10
    ensures DigitValue(DigitChar(d)) == d
  {
  }

  /** Decimal numeral of `n`, most significant digit first, no leading zero. */
  function NatToDecimal(n: nat): (s: string)
    ensures |s| >= 1 && AllDigits(s)
    ensures |s| > 1 ==> s[0] != '0'
    decreases n
  {
    if n < 10 then [DigitChar(n)] else NatToDecimal(n / 10) + [DigitChar(n % 10)]
  }

  /** Value of a decimal numeral. */
  function DecimalToNat(s: string): nat
    requires AllDigits(s)
    decreases |s|
  {
    if |s| == 0 then 0 else DecimalToNat(s[..|s| - 1]) * 10 + DigitValue(s[|s| - 1])
  }

  lemma {:induction false} DecimalRoundTrip(n: nat)
    ensures DecimalToNat(NatToDecimal(n)) == n
    decreases n
  {
    var s := NatToDecimal(n);
    if n < 10 {
      DigitRoundTrip(n);
      assert s[..|s| - 1] == [];
    } else {
      DecimalRoundTrip(n / 10);
      DigitRoundTrip(n % 10);
      assert s[..|s| - 1] == NatToDecimal(n / 10);
    }
  }

  // ---------------------------------------------------------------------
  // "Append if not already present" (PHP `if (!in_array(x, a)) a[] = x;`)

  /** Appends, in order, each element of `items` not yet in the accumulator. */
  function AppendNew<T(==)>(acc: seq<T>, items: seq<T>): (r: seq<T>)
    ensures NoDups(acc) ==> NoDups(r)
    ensures |acc| <= |r| && r[..|acc|] == acc
    ensures forall i :: 0 <= i < |r| ==> r[i] in acc || r[i] in items
    ensures forall i :: 0 <= i < |items| ==> items[i] in r
    decreases |items|
  {
    if |items| == 0 then acc
    else
      var next := if items[0] in acc then acc else acc + [items[0]];
      assert next[..|acc|] == acc;
      assert NoDups(acc) ==> NoDups(next);
      assert items[0] in next;
      var r := AppendNew(next, items[1..]);
      assert items[0] in r[..|next|];
      r
  }

  /** Two passes of the loop are one pass over the concatenation. */
  lemma {:induction false} AppendNewAppend<T>(acc: seq<T>, xs: seq<T>, ys: seq<T>)
    ensures AppendNew(AppendNew(acc, xs), ys) == AppendNew(acc, xs + ys)
    decreases |xs|
  {
    if |xs| == 0 {
      assert xs + ys == ys;
    } else {
      assert (xs + ys)[0] == xs[0];
      assert (xs + ys)[1..] == xs[1..] + ys;
      var next := if xs[0] in acc then acc else acc + [xs[0]];
      AppendNewAppend(next, xs[1..], ys);
    }
  }

  /** Reference definition of deduplication: keep exactly the elements
      that do not occur earlier in `s`, in their order in `s`. */
  function FirstOccurrences<T(==)>(s: seq<T>): seq<T>
    decreases |s|
  {
    if |s| == 0 then []
    else
      var init := s[..|s| - 1];
      FirstOccurrences(init) + (if s[|s| - 1] in init then [] else [s[|s| - 1]])
  }

  lemma {:induction false} FirstOccurrencesMembers<T>(s: seq<T>)
    ensures forall i :: 0 <= i < |s| ==> s[i] in FirstOccurrences(s)
    ensures forall x :: x in FirstOccurrences(s) ==> x in s
    ensures NoDups(FirstOccurrences(s))
    decreases |s|
  {
    if |s| > 0 {
      var init := s[..|s| - 1];
      FirstOccurrencesMembers(init);
      assert s == init + [s[|s| - 1]];
    }
  }

  lemma {:induction false} FirstOccurrencesOfDistinct<T>(s: seq<T>)
    requires NoDups(s)
    ensures FirstOccurrences(s) == s
    decreases |s|
  {
    if |s| > 0 {
      var init := s[..|s| - 1];
      assert NoDups(init);
      FirstOccurrencesOfDistinct(init);
      assert s[|s| - 1] !in init;
      assert s == init + [s[|s| - 1]];
    }
  }

  /** The accumulating loop computes the reference deduplication of
      everything seen so far. */
  lemma {:induction false} AppendNewIsFirstOccurrences<T>(prefix: seq<T>, items: seq<T>)
    ensures AppendNew(FirstOccurrences(prefix), items) == FirstOccurrences(prefix + items)
    decreases |items|
  {
    if |items| == 0 {
      assert prefix + items == prefix;
    } else {
      var a, rest := items[0], items[1..];
      var next := prefix + [a];
      assert items == [a] + rest;
      assert next + rest == prefix + items;
      var fo := FirstOccurrences(prefix);
      FirstOccurrencesSnoc(prefix, a);
      AppendNewStep(fo, items);
      AppendNewIsFirstOccurrences(next, rest);
      calc {
        AppendNew(fo, items);
        AppendNew(fo + (if a in fo then [] else [a]), rest);
        AppendNew(FirstOccurrences(next), rest);
        FirstOccurrences(next + rest);
      }
    }
  }

  lemma FirstOccurrencesSnoc<T>(prefix: seq<T>, a: T)
    ensures FirstOccurrences(prefix + [a])
         == FirstOccurrences(prefix) + (if a in FirstOccurrences(prefix) then [] else [a])
  {
    FirstOccurrencesMembers(prefix);
    var next := prefix + [a];
    assert next[..|next| - 1] == prefix;
  }

  lemma AppendNewStep<T>(acc: seq<T>, items: seq<T>)
    requires |items| > 0
    ensures AppendNew(acc, items)
         == AppendNew(acc + (if items[0] in acc then [] else [items[0]]), items[1..])
  {
    if items[0] in acc {
      assert acc + [] == acc;
    }
  }

  /** Deduplicating into a duplicate-free accumulator is the reference
      deduplication of the accumulator followed by the new items. */
  lemma AppendNewDedups<T>(acc: seq<T>, items: seq<T>)
    requires NoDups(acc)
    ensures AppendNew(acc, items) == FirstOccurrences(acc + items)
  {
    FirstOccurrencesOfDistinct(acc);
    AppendNewIsFirstOccurrences(acc, items);
  }
}
