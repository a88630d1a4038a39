/** String operations the views rely on, restricted to what the model needs:
    code-unit order (what `localeCompare` amounts to on fixed-width `YYYY-MM`
    strings), ASCII `toLowerCase`, `includes`, integer `toString`,
    `padStart`, and the first-separator cases of `split` and `replace`. */
module Text {

  // ---------------------------------------------------------------- order

  /** `a` sorts strictly before `b`, comparing character codes from the left;
      a proper prefix sorts first. */
  predicate LexLess(a: string, b: string)
  {
    if a == [] then b != []
    else if b == [] then false
    else if a[0] != b[0] then a[0] < b[0]
    else LexLess(a[1..], b[1..])
  }

  /** Two strings that agree up to position `k` and differ there are ordered by that character. */
  lemma {:induction false} LexLessAtFirstDifference(a: string, b: string, k: nat)
    requires k < |a| && k < |b| && a[..k] == b[..k] && a[k] < b[k]
    ensures LexLess(a, b)
  {
    if k > 0 {
      assert a[0] == a[..k][0] && b[0] == b[..k][0];
      assert a[1..][..k - 1] == a[..k][1..] && b[1..][..k - 1] == b[..k][1..];
      LexLessAtFirstDifference(a[1..], b[1..], k - 1);
    }
  }

  /** The order is strict and total: of two different strings exactly one sorts first. */
  lemma {:induction false} LexTrichotomy(a: string, b: string)
    ensures !LexLess(a, a)
    ensures a != b ==> LexLess(a, b) != LexLess(b, a)
  {
    if a != [] {
      LexTrichotomy(a[1..], a[1..]);
    }
    if a != [] && b != [] && a[0] == b[0] {
      LexTrichotomy(a[1..], b[1..]);
      if a != b {
        assert a == [a[0]] + a[1..] && b == [b[0]] + b[1..];
      }
    }
  }

  lemma {:induction false} LexTransitive(a: string, b: string, c: string)
    requires LexLess(a, b) && LexLess(b, c)
    ensures LexLess(a, c)
  {
    if a != [] && b != [] && c != [] && a[0] == b[0] && b[0] == c[0] {
      LexTransitive(a[1..], b[1..], c[1..]);
    }
  }

  /** "Not before" is transitive too, which a descending sort needs. */
  lemma LexNotLessTransitive(a: string, b: string, c: string)
    requires !LexLess(a, b) && !LexLess(b, c)
    ensures !LexLess(a, c)
  {
    LexTrichotomy(a, b);
    LexTrichotomy(b, c);
    LexTrichotomy(a, c);
    if a != b && b != c {
      LexTransitive(c, b, a);
    }
  }

  /** Comparing two strings that start with equal-length parts compares those parts first. */
  lemma {:induction false} LexAppend(a1: string, b1: string, a2: string, b2: string)
    requires |a1| == |a2|
    ensures LexLess(a1 + b1, a2 + b2) <==> LexLess(a1, a2) || (a1 == a2 && LexLess(b1, b2))
  {
    if a1 == [] {
      assert a1 + b1 == b1 && a2 + b2 == b2;
    } else {
      assert (a1 + b1)[0] == a1[0] && (a2 + b2)[0] == a2[0];
      assert (a1 + b1)[1..] == a1[1..] + b1 && (a2 + b2)[1..] == a2[1..] + b2;
      LexAppend(a1[1..], b1, a2[1..], b2);
      if a1[0] == a2[0] {
        assert a1 == a2 <==> a1[1..] == a2[1..] by {
          assert a1 == [a1[0]] + a1[1..] && a2 == [a2[0]] + a2[1..];
        }
      }
    }
  }

  /** Two strings made of an equal-width field, one separator and a second
      field compare field by field. */
  lemma LexTwoFields(x1: string, y1: string, x2: string, y2: string, sep: char)
    requires |x1| == |x2|
    ensures LexLess(x1 + [sep] + y1, x2 + [sep] + y2) <==> LexLess(x1, x2) || (x1 == x2 && LexLess(y1, y2))
    ensures x1 + [sep] + y1 == x2 + [sep] + y2 <==> x1 == x2 && y1 == y2
  {
    LexAppend(x1, [sep], x2, [sep]);
    LexTrichotomy([sep], [sep]);
    LexAppend(x1 + [sep], y1, x2 + [sep], y2);
    var n := |x1|;
    var s1, s2 := x1 + [sep] + y1, x2 + [sep] + y2;
    assert s1[..n] == x1 && s2[..n] == x2;
    assert s1[n + 1..] == y1 && s2[n + 1..] == y2;
  }

  // ------------------------------------------------------------ case fold

  /** ASCII `toLowerCase` of one character. */
  function LowerChar(c: char): char
  {
    if 'A' <= c <= 'Z' then (c as int + 32) as char else c
  }

  /** ASCII `toLowerCase`: upper-case letters become lower case, nothing else changes. */
  function Lower(s: string): (r: string)
    ensures |r| == |s|
    ensures forall i :: 0 <= i < |r| ==> !('A' <= r[i] <= 'Z')
    ensures forall i :: 0 <= i < |s| && !('A' <= s[i] <= 'Z') ==> r[i] == s[i]
    ensures forall i :: 0 <= i < |s| && 'A' <= s[i] <= 'Z' ==> r[i] as int == s[i] as int + 32
  {
    seq(|s|, i requires 0 <= i < |s| => LowerChar(s[i]))
  }

  /** Folding twice is folding once. */
  lemma LowerIdempotent(s: string)
    ensures Lower(Lower(s)) == Lower(s)
  {
    assert forall i :: 0 <= i < |s| ==> Lower(Lower(s))[i] == Lower(s)[i];
  }

  /** A lower-case letter in the folded string comes from that letter or its capital. */
  lemma LowerHasLetter(s: string, c: char)
    requires 'a' <= c <= 'z' && c in Lower(s)
    ensures c in s || (c as int - 32) as char in s
  {
    var i :| 0 <= i < |Lower(s)| && Lower(s)[i] == c;
    assert s[i] == c || s[i] == (c as int - 32) as char;
  }

  // ------------------------------------------------------------- includes

  predicate StartsWith(s: string, prefix: string)
  {
    |prefix| <= |s| && s[..|prefix|] == prefix
  }

  /** `part` occurs in `s` starting at position `i`. */
  predicate OccursAt(s: string, part: string, i: nat)
  {
    i + |part| <= |s| && s[i..i + |part|] == part
  }

  /** `s.includes(part)` */
  predicate Contains(s: string, part: string)
  {
    StartsWith(s, part) || (s != [] && Contains(s[1..], part))
  }

  /** `includes` holds exactly when `part` occurs at some position of `s`. */
  lemma {:induction false} ContainsIffOccurs(s: string, part: string)
    ensures Contains(s, part) <==> exists i: nat :: OccursAt(s, part, i)
  {
    if s == [] {
      if Contains(s, part) {
        assert OccursAt(s, part, 0);
      }
      if exists i: nat :: OccursAt(s, part, i) {
        var i: nat :| OccursAt(s, part, i);
        assert StartsWith(s, part);
      }
    } else {
      ContainsIffOccurs(s[1..], part);
      if Contains(s, part) {
        if StartsWith(s, part) {
          assert OccursAt(s, part, 0);
        } else {
          var j: nat :| OccursAt(s[1..], part, j);
          assert s[j + 1..j + 1 + |part|] == s[1..][j..j + |part|];
          assert OccursAt(s, part, j + 1);
        }
      }
      if exists i: nat :: OccursAt(s, part, i) {
        var i: nat :| OccursAt(s, part, i);
        if i == 0 {
          assert StartsWith(s, part);
        } else {
          assert s[1..][i - 1..i - 1 + |part|] == s[i..i + |part|];
          assert OccursAt(s[1..], part, i - 1);
        }
      }
    }
  }

  /** A non-empty part can only be found in a string holding its first character. */
  lemma ContainsHasFirstChar(s: string, part: string)
    requires part != [] && Contains(s, part)
    ensures part[0] in s
  {
    ContainsIffOccurs(s, part);
    var i: nat :| OccursAt(s, part, i);
    assert s[i..i + |part|][0] == s[i];
  }

  // ------------------------------------------------------ number to text

  function DigitChar(d: nat): char
    requires d < 10
  {
    ('0' as int + d) as char
  }

  /** `n.toString()` for a non-negative integer. */
  function DecimalNat(n: nat): (r: string)
    ensures |r| >= 1
  {
    if n < 10 then [DigitChar(n)] else DecimalNat(n / 10) + [DigitChar(n % 10)]
  }

  /** `` `${i}` `` for an integer. */
  function Decimal(i: int): string
  {
    if i < 0 then "-" + DecimalNat(-i) else DecimalNat(i)
  }

  /** `s.padStart(width, fill)` with a one-character fill. */
  function PadStart(s: string, width: nat, fill: char): (r: string)
    ensures |r| == if |s| < width then width else |s|
    ensures r[|r| - |s|..] == s
    ensures forall i :: 0 <= i < |r| - |s| ==> r[i] == fill
  {
    if |s| < width then seq(width - |s|, _ => fill) + s else s
  }

  function Pow10(k: nat): (p: nat)
    ensures p >= 1
  {
    if k == 0 then 1 else 10 * Pow10(k - 1)
  }

  /** The last `k` decimal digits of `n`, most significant first. */
  function Digits(n: nat, k: nat): (r: string)
    ensures |r| == k
  {
    if k == 0 then [] else Digits(n / 10, k - 1) + [DigitChar(n % 10)]
  }

  lemma {:induction false} DigitsAreDigits(n: nat, k: nat)
    ensures forall i :: 0 <= i < k ==> '0' <= Digits(n, k)[i] <= '9'
  {
    if k > 0 {
      DigitsAreDigits(n / 10, k - 1);
    }
  }

  /** A number with exactly `k` digits prints as those `k` digits. */
  lemma {:induction false} DecimalNatIsDigits(n: nat, k: nat)
    requires 1 <= k && Pow10(k - 1) <= n < Pow10(k)
    ensures DecimalNat(n) == Digits(n, k)
  {
    if k == 1 {
      assert n < 10;
    } else {
      assert Pow10(k - 1) == 10 * Pow10(k - 2);
      assert n >= 10;
      assert Pow10(k - 2) <= n / 10 < Pow10(k - 1);
      DecimalNatIsDigits(n / 10, k - 1);
    }
  }

  lemma DigitCharOrder(x: nat, y: nat)
    requires x < 10 && y < 10
    ensures LexLess([DigitChar(x)], [DigitChar(y)]) <==> x < y
  {
    if DigitChar(x) == DigitChar(y) {
      assert [DigitChar(x)][1..] == [];
    }
  }

  /** Fixed-width digit strings sort exactly like the numbers they spell. */
  lemma {:induction false} DigitsOrder(a: nat, b: nat, k: nat)
    requires a < Pow10(k) && b < Pow10(k)
    ensures LexLess(Digits(a, k), Digits(b, k)) <==> a < b
    ensures Digits(a, k) == Digits(b, k) <==> a == b
  {
    if k == 0 {
      LexTrichotomy([], []);
    } else {
      assert a / 10 < Pow10(k - 1) && b / 10 < Pow10(k - 1);
      DigitsOrder(a / 10, b / 10, k - 1);
      var pa, pb := Digits(a / 10, k - 1), Digits(b / 10, k - 1);
      LexAppend(pa, [DigitChar(a % 10)], pb, [DigitChar(b % 10)]);
      DigitCharOrder(a % 10, b % 10);
      assert a == 10 * (a / 10) + a % 10 && b == 10 * (b / 10) + b % 10;
      LexTrichotomy(Digits(a, k), Digits(b, k));
      if Digits(a, k) == Digits(b, k) {
        assert pa == Digits(a, k)[..k - 1] && pb == Digits(b, k)[..k - 1];
        assert Digits(a, k)[k - 1] == DigitChar(a % 10) && Digits(b, k)[k - 1] == DigitChar(b % 10);
      }
    }
  }

  // ------------------------------------------------------ split / replace

  /** The text before the first `sep`, or all of `s`: the first field of `s.split(sep)`. */
  function FieldBefore(s: string, sep: char): (r: string)
    ensures sep !in r
    ensures StartsWith(s, r)
  {
    if s == [] || s[0] == sep then [] else [s[0]] + FieldBefore(s[1..], sep)
  }

  /** The text after the first `sep`. */
  function AfterFirst(s: string, sep: char): (r: string)
    requires sep in s
    ensures |r| < |s|
  {
    if s[0] == sep then s[1..] else AfterFirst(s[1..], sep)
  }

  /** `s.replace(sep, rep)` with a one-character string pattern: only the first occurrence is replaced. */
  function ReplaceFirst(s: string, sep: char, rep: string): string
  {
    if sep in s then FieldBefore(s, sep) + rep + AfterFirst(s, sep) else s
  }

  /** Splitting `x + sep + y` at the first `sep`, when `x` has none, gives back `x` and `y`. */
  lemma {:induction false} SplitAtFirst(x: string, sep: char, y: string)
    requires sep !in x
    ensures FieldBefore(x + [sep] + y, sep) == x
    ensures AfterFirst(x + [sep] + y, sep) == y
  {
    if x != [] {
      assert (x + [sep] + y)[1..] == x[1..] + [sep] + y;
      SplitAtFirst(x[1..], sep, y);
    } else {
      assert x + [sep] + y == [sep] + y;
    }
  }

  /** A string without `sep` is its own first field. */
  lemma {:induction false} FieldBeforeNoSeparator(s: string, sep: char)
    requires sep !in s
    ensures FieldBefore(s, sep) == s
  {
    if s != [] {
      FieldBeforeNoSeparator(s[1..], sep);
    }
  }
}
