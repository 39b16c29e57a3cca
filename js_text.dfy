/**
 * The JavaScript built-ins the core relies on, stated as functions:
 * `Array.prototype.slice`, `join`, `String.prototype.split` with a one-character
 * separator, `indexOf`, and `Number.prototype.toString` for integers.
 */
module JsText {

  /** `slice` normalises an index: negative counts from the end, then clamps to [0, len]. */
  function Clamp(i: int, len: nat): (r: nat)
    ensures r <= len
    ensures 0 <= i <= len ==> r == i
  {
    if i < 0 then (if len + i < 0 then 0 else len + i)
    else if i > len then len
    else i
  }

  /** `s.slice(start, end)` of a typed array or an array. */
  function Slice<T>(s: seq<T>, start: int, end: int): (r: seq<T>)
    ensures |r| <= |s|
    ensures 0 <= start <= end <= |s| ==> r == s[start..end]
    ensures 0 <= end <= start ==> r == []
  {
    var a := Clamp(start, |s|);
    var b := Clamp(end, |s|);
    if a < b then s[a..b] else []
  }

  /** The concatenation of all pieces, in order (`result.set` at a running offset, `join("")`). */
  function Flatten<T>(xs: seq<seq<T>>): (r: seq<T>)
  {
    if xs == [] then [] else Flatten(xs[..|xs| - 1]) + xs[|xs| - 1]
  }

  function TotalLength<T>(xs: seq<seq<T>>): nat
  {
    if xs == [] then 0 else TotalLength(xs[..|xs| - 1]) + |xs[|xs| - 1]|
  }

  lemma {:induction false} FlattenLength<T>(xs: seq<seq<T>>)
    ensures |Flatten(xs)| == TotalLength(xs)
  {
    if xs != [] {
      FlattenLength(xs[..|xs| - 1]);
    }
  }

  lemma {:induction false} FlattenAppend<T>(xs: seq<seq<T>>, ys: seq<seq<T>>)
    ensures Flatten(xs + ys) == Flatten(xs) + Flatten(ys)
  {
    if ys == [] {
      assert xs + ys == xs;
    } else {
      var init, last := ys[..|ys| - 1], ys[|ys| - 1];
      assert (xs + ys)[..|xs + ys| - 1] == xs + init;
      assert (xs + ys)[|xs + ys| - 1] == last;
      assert Flatten(xs + ys) == Flatten(xs + init) + last;
      FlattenAppend(xs, init);
      assert Flatten(ys) == Flatten(init) + last;
    }
  }

  /** `parts.join(sep)`. */
  function Join(parts: seq<string>, sep: string): (r: string)
  {
    if parts == [] then ""
    else if |parts| == 1 then parts[0]
    else Join(parts[..|parts| - 1], sep) + sep + parts[|parts| - 1]
  }

  lemma {:induction false} JoinCons(p: string, parts: seq<string>, sep: string)
    requires parts != []
    ensures Join([p] + parts, sep) == p + sep + Join(parts, sep)
  {
    if |parts| == 1 {
      assert [p] + parts == [p, parts[0]];
    } else {
      var init := parts[..|parts| - 1];
      assert ([p] + parts)[..|[p] + parts| - 1] == [p] + init;
      JoinCons(p, init, sep);
    }
  }

  /** `s.split(c)` for a one-character separator: the maximal pieces between occurrences of `c`. */
  function Split(s: string, c: char): (r: seq<string>)
    ensures |r| >= 1
  {
    if s == [] then [""]
    else
      var rest := Split(s[1..], c);
      if s[0] == c then [""] + rest else [[s[0]] + rest[0]] + rest[1..]
  }

  /** Splitting on `c` then joining with `c` gives the string back. */
  lemma {:induction false} SplitJoin(s: string, c: char)
    ensures Join(Split(s, c), [c]) == s
  {
    if s != [] {
      var rest := Split(s[1..], c);
      SplitJoin(s[1..], c);
      if s[0] == c {
        JoinCons("", rest, [c]);
      } else if |rest| > 1 {
        assert rest == [rest[0]] + rest[1..];
        JoinCons(rest[0], rest[1..], [c]);
        JoinCons([s[0]] + rest[0], rest[1..], [c]);
      }
    }
  }

  /** No piece of `s.split(c)` contains `c`. */
  lemma {:induction false} SplitPiecesFree(s: string, c: char)
    ensures forall i :: 0 <= i < |Split(s, c)| ==> c !in Split(s, c)[i]
  {
    if s != [] {
      SplitPiecesFree(s[1..], c);
      var rest := Split(s[1..], c);
      var r := Split(s, c);
      if s[0] != c {
        assert r[0] == [s[0]] + rest[0];
        forall i | 0 < i < |r| ensures c !in r[i] {
          assert r[i] == rest[i];
        }
      }
    }
  }

  /** A string without the separator splits into itself alone. */
  lemma {:induction false} SplitNoSeparator(s: string, c: char)
    requires c !in s
    ensures Split(s, c) == [s]
  {
    if s != [] {
      SplitNoSeparator(s[1..], c);
      assert [s[0]] + s[1..] == s;
    }
  }

  /** Splitting `a + c + b`, where `a` has no `c`, gives `a` and then the pieces of `b`. */
  lemma {:induction false} SplitPrefix(a: string, c: char, b: string)
    requires c !in a
    ensures Split(a + [c] + b, c) == [a] + Split(b, c)
  {
    if a != [] {
      assert (a + [c] + b)[1..] == a[1..] + [c] + b;
      SplitPrefix(a[1..], c, b);
      assert [a[0]] + a[1..] == a;
    } else {
      assert a + [c] + b == [c] + b;
      assert ([c] + b)[1..] == b;
    }
  }

  predicate OccursAt<T(==)>(s: seq<T>, p: seq<T>, k: int)
  {
    0 <= k <= |s| - |p| && s[k..k + |p|] == p
  }

  /** `s.indexOf(p)`: the first position where `p` occurs, or -1. */
  function IndexOf<T(==)>(s: seq<T>, p: seq<T>): (r: int)
    ensures r == -1 || OccursAt(s, p, r)
    ensures forall k :: OccursAt(s, p, k) ==> 0 <= r <= k
    decreases |s|
  {
    if |s| < |p| then -1
    else if s[..|p|] == p then 0
    else
      var i := IndexOf(s[1..], p);
      forall k | OccursAt(s, p, k) ensures k >= 1 && OccursAt(s[1..], p, k - 1) {
        OccursShift(s, p, k);
      }
      if i == -1 then -1
      else
        OccursShift(s, p, i + 1);
        i + 1
  }

  /** An occurrence past the first position is an occurrence in the tail, one position earlier. */
  lemma OccursShift<T>(s: seq<T>, p: seq<T>, k: int)
    requires |s| > 0 && 1 <= k
    ensures OccursAt(s, p, k) <==> OccursAt(s[1..], p, k - 1)
  {
    if 0 <= k - 1 <= |s[1..]| - |p| {
      assert s[1..][k - 1..k - 1 + |p|] == s[k..k + |p|];
    }
  }

  /** Decimal and hexadecimal rendering (`n.toString()`, `n.toString(16).toUpperCase()`). */
  function Digits(n: nat, base: nat): (r: seq<nat>)
    requires base >= 2
    ensures |r| >= 1
    ensures forall i :: 0 <= i < |r| ==> r[i] < base
    decreases n
  {
    if n < base then [n] else QuotientDecreases(n, base); Digits(n / base, base) + [n % base]
  }

  lemma QuotientDecreases(n: nat, base: nat)
    requires 2 <= base <= n
    ensures 0 < n / base < n && 0 <= n % base < base
  {
    var q := n / base;
    assert q * base + n % base == n;
    assert q * base == q * 2 + q * (base - 2);
  }

  function FromDigits(ds: seq<nat>, base: nat): nat
  {
    if ds == [] then 0 else FromDigits(ds[..|ds| - 1], base) * base + ds[|ds| - 1]
  }

  /** The digit sequence reads back as the number it was made from. */
  lemma {:induction false} DigitsRoundTrip(n: nat, base: nat)
    requires base == 10 || base == 16
    ensures FromDigits(Digits(n, base), base) == n
    decreases n
  {
    if n >= base {
      var q, r := n / base, n % base;
      var ds := Digits(n, base);
      assert ds[..|ds| - 1] == Digits(q, base);
      DigitsRoundTrip(q, base);
      var f := FromDigits(Digits(q, base), base);
      assert FromDigits(ds, base) == f * base + r;
      if base == 10 {
        assert f * 10 + r == n;
      } else {
        assert f * 16 + r == n;
      }
    }
  }

  function DigitChar(d: nat): (c: char)
    requires d < 16
  {
    if d < 10 then ('0' as int + d) as char else ('A' as int + d - 10) as char
  }

  function DigitValue(c: char): nat
  {
    if '0' <= c <= '9' then c as int - '0' as int
    else if 'A' <= c <= 'F' then c as int - 'A' as int + 10
    else 0
  }

  function Render(ds: seq<nat>): (r: string)
    requires forall i :: 0 <= i < |ds| ==> ds[i] < 16
    ensures |r| == |ds|
    ensures forall i :: 0 <= i < |ds| ==> r[i] == DigitChar(ds[i])
  {
    if ds == [] then [] else Render(ds[..|ds| - 1]) + [DigitChar(ds[|ds| - 1])]
  }

  /** `n.toString()` for a non-negative integer. */
  function NatToString(n: nat): (r: string)
    ensures |r| >= 1
    ensures forall i :: 0 <= i < |r| ==> '0' <= r[i] <= '9'
  {
    Render(Digits(n, 10))
  }

  /** `i.toString()` for any integer: a minus sign before the digits of its magnitude. */
  function IntToString(i: int): (r: string)
    ensures |r| >= 1
  {
    if i < 0 then "-" + NatToString(-i) else NatToString(i)
  }

  /** `n.toString(16).toUpperCase()`: upper-case hexadecimal digits, no zero padding. */
  function HexUpper(n: nat): (r: string)
    ensures |r| >= 1
    ensures forall i :: 0 <= i < |r| ==> '0' <= r[i] <= '9' || 'A' <= r[i] <= 'F'
  {
    Render(Digits(n, 16))
  }

  /** Reads a decimal or upper-case hexadecimal numeral. */
  function ParseNumeral(s: string, base: nat): nat
  {
    if s == [] then 0 else ParseNumeral(s[..|s| - 1], base) * base + DigitValue(s[|s| - 1])
  }

  lemma {:induction false} ParseRender(ds: seq<nat>, base: nat)
    requires base == 10 || base == 16
    requires forall i :: 0 <= i < |ds| ==> ds[i] < base
    ensures ParseNumeral(Render(ds), base) == FromDigits(ds, base)
  {
    if ds != [] {
      var r := Render(ds);
      assert r[..|r| - 1] == Render(ds[..|ds| - 1]);
      ParseRender(ds[..|ds| - 1], base);
    }
  }

  /** The decimal text of a number reads back as that number. */
  lemma NatToStringRoundTrip(n: nat)
    ensures ParseNumeral(NatToString(n), 10) == n
  {
    ParseRender(Digits(n, 10), 10);
    DigitsRoundTrip(n, 10);
  }

  /** The number an optional minus sign and decimal digits stand for, as `Number(s)` reads them. */
  function ParseInt(s: string): int
  {
    if |s| > 0 && s[0] == '-' then -(ParseNumeral(s[1..], 10) as int) else ParseNumeral(s, 10)
  }

  /** The decimal text of any integer reads back as that integer, and holds only a sign and digits. */
  lemma IntToStringRoundTrip(i: int)
    ensures ParseInt(IntToString(i)) == i
    ensures forall k :: 0 <= k < |IntToString(i)| ==> IntToString(i)[k] == '-' || '0' <= IntToString(i)[k] <= '9'
  {
    var m: nat := if i < 0 then -i else i;
    var t := NatToString(m);
    NatToStringRoundTrip(m);
    if i < 0 {
      var r := "-" + t;
      assert IntToString(i) == r;
      assert r[1..] == t;
      forall k | 0 <= k < |r|
        ensures r[k] == '-' || '0' <= r[k] <= '9'
      {
        if k > 0 {
          assert r[k] == t[k - 1];
        }
      }
    } else {
      assert IntToString(i) == t && t[0] != '-';
    }
  }

  /** The hexadecimal text of a number reads back as that number; a byte takes one or two digits. */
  lemma HexUpperRoundTrip(n: nat)
    ensures ParseNumeral(HexUpper(n), 16) == n
    ensures n < 16 ==> |HexUpper(n)| == 1
    ensures 16 <= n < 256 ==> |HexUpper(n)| == 2
  {
    ParseRender(Digits(n, 16), 16);
    DigitsRoundTrip(n, 16);
  }

  /** A decimal numeral as `n.toString()` writes it: digits only, no leading zero unless it is "0". */
  predicate IsDecimalNumeral(k: string)
  {
    |k| >= 1 && (forall i :: 0 <= i < |k| ==> '0' <= k[i] <= '9') && (|k| == 1 || k[0] != '0')
  }

  lemma {:induction false} NumeralPositive(k: string)
    requires |k| >= 1 && (forall i :: 0 <= i < |k| ==> '0' <= k[i] <= '9') && k[0] != '0'
    ensures ParseNumeral(k, 10) >= 1
    decreases |k|
  {
    if |k| == 1 {
      assert k[..0] == [];
    } else {
      var init := k[..|k| - 1];
      assert init[0] == k[0];
      NumeralPositive(init);
    }
  }

  /** Every canonical decimal numeral is the `toString()` of the number it denotes. */
  lemma {:induction false} NumeralIsNatToString(k: string)
    requires IsDecimalNumeral(k)
    ensures NatToString(ParseNumeral(k, 10)) == k
    decreases |k|
  {
    var last := k[|k| - 1];
    var d := DigitValue(last);
    assert d < 10 && DigitChar(d) == last;
    if |k| == 1 {
      assert k[..0] == [];
      assert ParseNumeral(k, 10) == d;
      assert Digits(d, 10) == [d];
      assert [last] == k;
    } else {
      var init := k[..|k| - 1];
      assert init[0] == k[0];
      NumeralPositive(init);
      NumeralIsNatToString(init);
      var m := ParseNumeral(init, 10);
      var n := m * 10 + d;
      assert ParseNumeral(k, 10) == n;
      assert n / 10 == m && n % 10 == d;
      var ds := Digits(m, 10);
      assert Digits(n, 10) == ds + [d];
      assert (ds + [d])[..|ds|] == ds;
      assert Render(ds + [d]) == Render(ds) + [DigitChar(d)];
      assert init + [last] == k;
    }
  }

  /** A sequence is its prefix up to `i` followed by the rest. */
  lemma TakeDrop<T>(s: seq<T>, i: int)
    requires 0 <= i <= |s|
    ensures s[..i] + s[i..] == s
  {
  }

  /** Concatenation regroups freely. */
  lemma ConcatAssoc<T>(a: seq<T>, b: seq<T>, c: seq<T>)
    ensures (a + b) + c == a + (b + c)
  {
  }
}
