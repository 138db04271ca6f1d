/** Numbers and lists as text: the parts of Rust's formatting and `from_str_radix` that letmein relies on. */
module Text {
  import opened Wire

  type Digit = d: nat | d < 16

  /** Digits of `n`, most significant first; zero prints as one digit. */
  function Numeral(n: nat, base: nat): (ds: seq<Digit>)
    requires 2 <= base <= 16
    ensures ds != [] && forall i :: 0 <= i < |ds| ==> ds[i] < base
  {
    if n < base then [n] else Numeral(n / base, base) + [n % base]
  }

  function Value(ds: seq<Digit>, base: nat): nat {
    if ds == [] then 0 else Value(ds[..|ds| - 1], base) * base + ds[|ds| - 1]
  }

  lemma {:induction false} ValueSnoc(ds: seq<Digit>, d: Digit, base: nat)
    ensures Value(ds + [d], base) == Value(ds, base) * base + d
  {
    assert (ds + [d])[..|ds|] == ds;
  }

  lemma {:induction false} DivSmaller(n: nat, base: nat)
    requires 2 <= base <= n
    ensures n / base < n && n == n / base * base + n % base
  {
    var q := n / base;
    assert q * 2 <= q * base <= n;
  }

  lemma {:induction false} ValueOfNumeral(n: nat, base: nat)
    requires 2 <= base <= 16
    ensures Value(Numeral(n, base), base) == n
  {
    if n < base {
      assert Value([n], base) == Value([], base) * base + n;
    } else {
      var q, lo := n / base, n % base;
      DivSmaller(n, base);
      ValueOfNumeral(q, base);
      ValueSnoc(Numeral(q, base), lo, base);
      assert Numeral(n, base) == Numeral(q, base) + [lo];
    }
  }

  const LOWER := "0123456789abcdef"
  const UPPER := "0123456789ABCDEF"

  function DigitChar(d: Digit, upper: bool): char {
    if upper then UPPER[d] else LOWER[d]
  }

  /** `char::to_digit`: accepts both letter cases. */
  function CharDigit(c: char): Option<Digit> {
    if '0' <= c <= '9' then Some(c as int - '0' as int)
    else if 'a' <= c <= 'f' then Some(c as int - 'a' as int + 10)
    else if 'A' <= c <= 'F' then Some(c as int - 'A' as int + 10)
    else None
  }

  lemma {:induction false} CharDigitOfDigitChar(d: Digit, upper: bool)
    ensures CharDigit(DigitChar(d, upper)) == Some(d)
  {
    if d < 10 {
      assert DigitChar(d, upper) == "0123456789"[d];
    }
  }

  /** Characters of a digit list. */
  function Chars(ds: seq<Digit>, upper: bool): (s: string)
    ensures |s| == |ds|
    ensures forall i :: 0 <= i < |s| ==> CharDigit(s[i]) == Some(ds[i])
  {
    var s := seq(|ds|, i requires 0 <= i < |ds| => DigitChar(ds[i], upper));
    assert forall i :: 0 <= i < |s| ==> CharDigit(s[i]) == Some(ds[i]) by {
      forall i | 0 <= i < |s| ensures CharDigit(s[i]) == Some(ds[i]) {
        CharDigitOfDigitChar(ds[i], upper);
      }
    }
    s
  }

  predicate AllDigits(s: string, base: nat) {
    forall i :: 0 <= i < |s| ==> CharDigit(s[i]).Some? && CharDigit(s[i]).value < base
  }

  function DigitsOf(s: string): (ds: seq<Digit>)
    requires AllDigits(s, 16)
    ensures |ds| == |s|
  {
    seq(|s|, i requires 0 <= i < |s| => CharDigit(s[i]).value)
  }

  /** `format!("{n}")` for base 10, `format!("{n:x}")` for base 16. */
  function Print(n: nat, base: nat): (s: string)
    requires 2 <= base <= 16
    ensures s != "" && AllDigits(s, base)
  {
    Chars(Numeral(n, base), false)
  }

  lemma {:induction false} PrintValue(n: nat, base: nat)
    requires 2 <= base <= 16
    ensures Value(DigitsOf(Print(n, base)), base) == n
  {
    ValueOfNumeral(n, base);
    assert DigitsOf(Print(n, base)) == Numeral(n, base);
  }

  lemma {:induction false} PrintInjective(m: nat, n: nat, base: nat)
    requires 2 <= base <= 16
    requires Print(m, base) == Print(n, base)
    ensures m == n
  {
    PrintValue(m, base);
    PrintValue(n, base);
  }

  /** A separator occurs at one place only when the left part is free of it. */
  lemma {:induction false} SplitUnique<T>(c: T, x: seq<T>, y: seq<T>, x': seq<T>, y': seq<T>)
    requires c !in x && c !in x'
    requires x + [c] + y == x' + [c] + y'
    ensures x == x' && y == y'
  {
    var l, r := x + [c] + y, x' + [c] + y';
    assert forall i :: 0 <= i < |x| ==> l[i] == x[i];
    assert forall i :: 0 <= i < |x'| ==> r[i] == x'[i];
    assert l[|x|] == c && r[|x'|] == c;
    assert |x| == |x'|;
    assert x == l[..|x|] && x' == r[..|x'|];
    assert y == l[|x| + 1..] && y' == r[|x'| + 1..];
  }

  /** Numbers as one writes them. */
  lemma PrintExamples()
    ensures Print(0, 10) == "0" && Print(5800, 10) == "5800" && Print(255, 16) == "ff"
  {
    assert Numeral(58, 10) == [5, 8] && Numeral(580, 10) == [5, 8, 0] && Numeral(5800, 10) == [5, 8, 0, 0];
    assert Numeral(255, 16) == [15, 15];
    assert LOWER[5] == '5' && LOWER[8] == '8' && LOWER[0] == '0' && LOWER[15] == 'f';
  }

  // ---------- Fields with separators ----------

  function Join(fields: seq<string>, sep: char): string
    requires fields != []
  {
    if |fields| == 1 then fields[0] else fields[0] + [sep] + Join(fields[1..], sep)
  }

  predicate FreeOf(fields: seq<string>, sep: char) {
    forall i :: 0 <= i < |fields| ==> sep !in fields[i]
  }

  lemma {:induction false} JoinSep(f: seq<string>, sep: char)
    requires f != []
    ensures |f| > 1 ==> sep in Join(f, sep)
  {
    assert |f| > 1 ==> Join(f, sep)[|f[0]|] == sep;
  }

  lemma {:induction false} JoinInjective(f: seq<string>, g: seq<string>, sep: char)
    requires f != [] && g != [] && FreeOf(f, sep) && FreeOf(g, sep)
    requires Join(f, sep) == Join(g, sep)
    ensures f == g
  {
    JoinSep(f, sep);
    JoinSep(g, sep);
    if |f| > 1 && |g| > 1 {
      SplitUnique(sep, f[0], Join(f[1..], sep), g[0], Join(g[1..], sep));
      JoinInjective(f[1..], g[1..], sep);
      assert f == [f[0]] + f[1..] && g == [g[0]] + g[1..];
    }
  }

  lemma {:induction false} JoinChars(f: seq<string>, sep: char, c: char)
    requires f != [] && c in Join(f, sep)
    ensures c == sep || exists i :: 0 <= i < |f| && c in f[i]
  {
    if |f| > 1 && c !in f[0] && c != sep {
      JoinChars(f[1..], sep, c);
      var i :| 0 <= i < |f[1..]| && c in f[1..][i];
      assert c in f[i + 1];
    }
  }

  lemma {:induction false} JoinConcat(f: seq<string>, g: seq<string>, sep: char)
    requires f != [] && g != []
    ensures Join(f + g, sep) == Join(f, sep) + [sep] + Join(g, sep)
  {
    if |f| > 1 {
      JoinConcat(f[1..], g, sep);
      assert (f + g)[1..] == f[1..] + g;
    } else {
      assert (f + g)[1..] == g;
    }
  }
}
