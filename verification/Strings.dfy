/** The string operations of the standard library that the configuration parser uses. */
module Strings {
  import opened Wire
  import opened Text

  /** Unicode White_Space, as `char::is_whitespace` has it. */
  predicate IsSpace(c: char) {
    var n := c as int;
    || 0x9 <= n <= 0xD || n == 0x20 || n == 0x85 || n == 0xA0 || n == 0x1680
    || 0x2000 <= n <= 0x200A || n == 0x2028 || n == 0x2029 || n == 0x202F || n == 0x205F || n == 0x3000
  }

  function TrimStart(s: string): (t: string)
    ensures t != "" ==> !IsSpace(t[0])
    ensures s != "" && !IsSpace(s[0]) ==> t == s
  {
    if s != "" && IsSpace(s[0]) then TrimStart(s[1..]) else s
  }

  function TrimEnd(s: string): (t: string)
    ensures t <= s && (t != "" ==> !IsSpace(t[|t| - 1]))
    ensures s != "" && !IsSpace(s[|s| - 1]) ==> t == s
    ensures s != "" && !IsSpace(s[0]) ==> t != ""
  {
    if s != "" && IsSpace(s[|s| - 1]) then TrimEnd(s[..|s| - 1]) else s
  }

  function Trim(s: string): string {
    TrimEnd(TrimStart(s))
  }

  /** Position of the first `c`. */
  function IndexOf(s: string, c: char): (i: nat)
    requires c in s
    ensures i < |s| && s[i] == c && c !in s[..i]
  {
    if s[0] == c then 0
    else
      var i := IndexOf(s[1..], c);
      assert s[..i + 1] == [s[0]] + s[1..][..i];
      i + 1
  }

  /** `IndexOf` is the only place that splits off a part without `c`. */
  lemma {:induction false} IndexOfConcat(x: string, c: char, y: string)
    requires c !in x
    ensures c in x + [c] + y && IndexOf(x + [c] + y, c) == |x|
  {
    var s := x + [c] + y;
    assert s[|x|] == c;
    var i := IndexOf(s, c);
    assert forall j :: 0 <= j < |x| ==> s[j] == x[j];
    assert forall j :: 0 <= j < i ==> s[j] == s[..i][j];
  }

  /** `str::split` with a character: always at least one part. */
  function Split(s: string, c: char): (parts: seq<string>)
    ensures parts != []
    decreases |s|
  {
    if c !in s then [s]
    else
      var i := IndexOf(s, c);
      [s[..i]] + Split(s[i + 1..], c)
  }

  /** The parts are free of the character, and joining them with it gives the text back. */
  lemma {:induction false} SplitJoin(s: string, c: char)
    ensures Join(Split(s, c), c) == s && FreeOf(Split(s, c), c)
    decreases |s|
  {
    if c in s {
      var i := IndexOf(s, c);
      var parts, rest := Split(s, c), Split(s[i + 1..], c);
      SplitJoin(s[i + 1..], c);
      assert parts == [s[..i]] + rest && parts[1..] == rest;
      assert s == s[..i] + [c] + s[i + 1..];
      assert forall k :: 1 <= k < |parts| ==> parts[k] == rest[k - 1];
    }
  }

  /** Parts that are free of the character come back from the joined text: splitting has no other result. */
  lemma SplitOfJoin(parts: seq<string>, c: char)
    requires parts != [] && FreeOf(parts, c)
    ensures Split(Join(parts, c), c) == parts
  {
    SplitJoin(Join(parts, c), c);
    JoinInjective(Split(Join(parts, c), c), parts, c);
  }

  predicate Spaces(s: string) {
    forall i :: 0 <= i < |s| ==> IsSpace(s[i])
  }

  /** No white space at either end. */
  predicate Tight(s: string) {
    s != "" ==> !IsSpace(s[0]) && !IsSpace(s[|s| - 1])
  }

  /** White space in ASCII: tab, line feed, vertical tab, form feed, carriage return and the space. */
  lemma AsciiSpaces(c: char)
    requires c <= '\U{7F}'
    ensures IsSpace(c) <==> c in ['\t', '\n', '\U{0B}', '\U{0C}', '\r', ' ']
  {
  }

  lemma {:induction false} TrimStartCuts(s: string) returns (a: string)
    ensures s == a + TrimStart(s) && Spaces(a)
  {
    if s != "" && IsSpace(s[0]) {
      var rest := TrimStartCuts(s[1..]);
      a := [s[0]] + rest;
      assert s == [s[0]] + (rest + TrimStart(s[1..]));
    } else {
      a := "";
    }
  }

  lemma {:induction false} TrimEndCuts(s: string) returns (b: string)
    ensures s == TrimEnd(s) + b && Spaces(b)
  {
    if s != "" && IsSpace(s[|s| - 1]) {
      var init := TrimEndCuts(s[..|s| - 1]);
      b := init + [s[|s| - 1]];
      assert s == (TrimEnd(s[..|s| - 1]) + init) + [s[|s| - 1]];
    } else {
      b := "";
    }
  }

  /** Spaces around a tight text are cut off, and nothing else. */
  lemma {:induction false} TrimStartSpaces(a: string, t: string)
    requires Spaces(a) && (t != "" ==> !IsSpace(t[0]))
    ensures TrimStart(a + t) == t
  {
    if a != "" {
      TrimStartSpaces(a[1..], t);
      assert (a + t)[0] == a[0] && (a + t)[1..] == a[1..] + t;
    } else {
      assert a + t == t;
    }
  }

  lemma {:induction false} TrimEndSpaces(t: string, b: string)
    requires Spaces(b) && (t != "" ==> !IsSpace(t[|t| - 1]))
    ensures TrimEnd(t + b) == t
  {
    if b != "" {
      var init := b[..|b| - 1];
      TrimEndSpaces(t, init);
      assert (t + b)[|t + b| - 1] == b[|b| - 1] && (t + b)[..|t + b| - 1] == t + init;
    } else {
      assert t + b == t;
    }
  }

  /** `t` without white space at its ends, inside nothing but white space, is what trimming gives. */
  lemma TrimOf(a: string, t: string, b: string)
    requires Spaces(a) && Spaces(b) && Tight(t)
    ensures Trim(a + t + b) == t
  {
    if t == "" {
      assert Spaces(a + b) && a + t + b == (a + b) + "";
      TrimStartSpaces(a + b, "");
    } else {
      assert a + t + b == a + (t + b) && (t + b)[0] == t[0];
      TrimStartSpaces(a, t + b);
      TrimEndSpaces(t, b);
    }
  }

  lemma TrimIsTight(s: string)
    ensures Tight(Trim(s))
  {
    var t := TrimStart(s);
    if Trim(s) != "" {
      assert Trim(s)[0] == t[0];
    }
  }

  lemma TrimCuts(s: string) returns (a: string, b: string)
    ensures s == a + Trim(s) + b && Spaces(a) && Spaces(b)
  {
    a := TrimStartCuts(s);
    b := TrimEndCuts(TrimStart(s));
    assert a + (Trim(s) + b) == a + Trim(s) + b;
  }

  /** Trimming gives `t` if and only if the text is `t` with white space around it and `t` has none at its ends. */
  lemma TrimIff(s: string, t: string)
    ensures Trim(s) == t <==> Tight(t) && exists a, b :: s == a + t + b && Spaces(a) && Spaces(b)
  {
    if Trim(s) == t {
      TrimIsTight(s);
      var a, b := TrimCuts(s);
    }
    if Tight(t) {
      forall a, b | s == a + t + b && Spaces(a) && Spaces(b) ensures Trim(s) == t {
        TrimOf(a, t, b);
      }
    }
  }

  function StripCr(s: string): string {
    if s != "" && s[|s| - 1] == '\r' then s[..|s| - 1] else s
  }

  /** `str::lines`: lines end with LF or CR LF; there is no empty line after the last line end. */
  function Lines(s: string): seq<string>
    decreases |s|
  {
    if s == "" then []
    else if '\n' !in s then [s]
    else
      var i := IndexOf(s, '\n');
      [StripCr(s[..i])] + Lines(s[i + 1..])
  }

  /** Lines as they end in a file: LF after each. */
  function Terminated(lines: seq<string>): string {
    if lines == [] then "" else lines[0] + ['\n'] + Terminated(lines[1..])
  }

  /** The line `x` is `y` with or without a CR in front of its LF. */
  predicate CrStripped(x: string, y: string) {
    if x != "" && x[|x| - 1] == '\r' then x == y + ['\r'] else x == y
  }

  /** `r` is the lines, each without a CR at its end, and the rest if it is not empty. */
  ghost predicate LinesAre(r: seq<string>, lines: seq<string>, rest: string) {
    && |r| == |lines| + (if rest == "" then 0 else 1)
    && (forall i :: 0 <= i < |lines| ==> CrStripped(lines[i], r[i]))
    && (rest != "" ==> r[|lines|] == rest)
  }

  lemma LinesAreCons(x: string, r: seq<string>, lines: seq<string>, rest: string)
    requires LinesAre(r, lines, rest)
    ensures LinesAre([StripCr(x)] + r, [x] + lines, rest)
  {
    var r', lines' := [StripCr(x)] + r, [x] + lines;
    forall i | 0 <= i < |lines'| ensures CrStripped(lines'[i], r'[i]) {
      if i > 0 {
        assert r'[i] == r[i - 1] && lines'[i] == lines[i - 1];
      }
    }
  }

  /**
   * Every text is some lines that end with LF and a rest without one. Its lines are those, without a CR
   * before the LF, and the rest if it is not empty.
   */
  lemma {:induction false} LinesOf(lines: seq<string>, rest: string)
    requires FreeOf(lines, '\n') && '\n' !in rest
    ensures LinesAre(Lines(Terminated(lines) + rest), lines, rest)
  {
    if lines == [] {
      assert Terminated(lines) + rest == rest;
    } else {
      var more := Terminated(lines[1..]) + rest;
      LinesOf(lines[1..], rest);
      assert Terminated(lines) + rest == lines[0] + ['\n'] + more;
      LinesCons(lines[0], more);
      LinesAreCons(lines[0], Lines(more), lines[1..], rest);
      assert [lines[0]] + lines[1..] == lines;
    }
  }

  lemma LinesCons(x: string, rest: string)
    requires '\n' !in x
    ensures Lines(x + ['\n'] + rest) == [StripCr(x)] + Lines(rest)
  {
    var s := x + ['\n'] + rest;
    IndexOfConcat(x, '\n', rest);
    assert s[..|x|] == x && s[|x| + 1..] == rest;
  }

  lemma {:induction false} TextAsLines(s: string) returns (lines: seq<string>, rest: string)
    ensures s == Terminated(lines) + rest && FreeOf(lines, '\n') && '\n' !in rest
    decreases |s|
  {
    if '\n' !in s {
      lines, rest := [], s;
      assert Terminated(lines) + rest == s;
    } else {
      var i := IndexOf(s, '\n');
      var more;
      more, rest := TextAsLines(s[i + 1..]);
      lines := [s[..i]] + more;
      assert lines[1..] == more && s == s[..i] + ['\n'] + s[i + 1..];
    }
  }

  /** Lower case of ASCII letters, which is all that matters when comparing with ASCII words. */
  function LowerChar(c: char): char {
    if 'A' <= c <= 'Z' then (c as int + 32) as char else c
  }

  function Lower(s: string): string {
    seq(|s|, i requires 0 <= i < |s| => LowerChar(s[i]))
  }

  /** `from_str_radix` for an unsigned type: optional '+', at least one digit, no overflow. */
  function FromStrRadix(s: string, base: nat, max: nat): (r: Option<nat>)
    requires 2 <= base <= 16
    ensures r.Some? ==> r.value <= max
  {
    var t := if s != "" && s[0] == '+' then s[1..] else s;
    if t == "" || !AllDigits(t, base) then None
    else if Value(DigitsOf(t), base) > max then None
    else Some(Value(DigitsOf(t), base))
  }

  /** Decimal, or hexadecimal after "0x". */
  function ParseU16(s: string): (r: Option<u16>) {
    var t := Trim(s);
    var n := if "0x" <= t then FromStrRadix(t[2..], 16, 0xFFFF) else FromStrRadix(t, 10, 0xFFFF);
    if n.Some? then Some(n.value) else None
  }

  /** User and resource identifiers are hexadecimal. */
  function ParseId(s: string): (r: Option<u32>) {
    var n := FromStrRadix(Trim(s), 16, 0xFFFF_FFFF);
    if n.Some? then Some(n.value) else None
  }

  /** A printed number reads as that number, with or without a plus sign, unless it is too large. */
  lemma RadixReads(n: nat, base: nat, max: nat)
    requires 2 <= base <= 16
    ensures FromStrRadix(Print(n, base), base, max) == if n <= max then Some(n) else None
    ensures FromStrRadix("+" + Print(n, base), base, max) == if n <= max then Some(n) else None
  {
    var s := Print(n, base);
    PrintValue(n, base);
    assert CharDigit(s[0]).Some?;
    assert ("+" + s)[1..] == s;
  }

  /** Without a digit, or with anything but digits after an optional plus sign, there is no number. */
  lemma RadixRejects(s: string, base: nat, max: nat, i: nat)
    requires 2 <= base <= 16
    requires s == "" || s == "+" || (i < |s| && !(i == 0 && s[0] == '+')
                                     && (CharDigit(s[i]).None? || CharDigit(s[i]).value >= base))
    ensures FromStrRadix(s, base, max).None?
  {
    if s != "" && s != "+" {
      var t := if s[0] == '+' then s[1..] else s;
      assert s[i] == t[if s[0] == '+' then i - 1 else i];
    }
  }

  /** Leading zeros make no difference. */
  lemma {:induction false} LeadingZero(ds: seq<Digit>, base: nat)
    ensures Value([0] + ds, base) == Value(ds, base)
  {
    if ds == [] {
      assert Value([0], base) == Value([], base) * base + 0;
    } else {
      var m := |ds| - 1;
      LeadingZero(ds[..m], base);
      assert ([0] + ds)[..m + 1] == [0] + ds[..m];
    }
  }

  lemma PrintTight(n: nat, base: nat)
    requires 2 <= base <= 16
    ensures Tight(Print(n, base)) && !("0x" <= Print(n, base))
  {
    var s := Print(n, base);
    assert CharDigit(s[0]).Some? && CharDigit(s[|s| - 1]).Some?;
    assert |s| > 1 ==> CharDigit(s[1]).Some?;
  }

  /** Ports are decimal, with white space around them, and at most 65535. */
  lemma PortReads(n: nat, a: string, b: string)
    requires Spaces(a) && Spaces(b)
    ensures ParseU16(a + Print(n, 10) + b) == if n < 0x1_0000 then Some(n) else None
  {
    PrintTight(n, 10);
    TrimOf(a, Print(n, 10), b);
    RadixReads(n, 10, 0xFFFF);
  }

  /** After "0x" they are hexadecimal. */
  lemma HexPortReads(n: nat, a: string, b: string)
    requires Spaces(a) && Spaces(b)
    ensures ParseU16(a + ("0x" + Print(n, 16)) + b) == if n < 0x1_0000 then Some(n) else None
  {
    var x := "0x" + Print(n, 16);
    PrintTight(n, 16);
    assert x[0] == '0' && x[|x| - 1] == Print(n, 16)[|Print(n, 16)| - 1];
    TrimOf(a, x, b);
    RadixReads(n, 16, 0xFFFF);
    assert x[2..] == Print(n, 16);
  }

  /** Identifiers are hexadecimal without a prefix, and fit into 32 bits. */
  lemma IdReads(n: nat, a: string, b: string)
    requires Spaces(a) && Spaces(b)
    ensures ParseId(a + Print(n, 16) + b) == if n < 0x1_0000_0000 then Some(n) else None
  {
    PrintTight(n, 16);
    TrimOf(a, Print(n, 16), b);
    RadixReads(n, 16, 0xFFFF_FFFF);
  }

  /** Letter case does not matter for the words of a resource line. */
  lemma LowerWords(s: string)
    ensures Lower(s) == "tcp" <==> |s| == 3 && s[0] in "tT" && s[1] in "cC" && s[2] in "pP"
    ensures Lower(s) == "udp" <==> |s| == 3 && s[0] in "uU" && s[1] in "dD" && s[2] in "pP"
  {
    if |s| == 3 {
      assert Lower(s) == [LowerChar(s[0]), LowerChar(s[1]), LowerChar(s[2])];
    }
  }

  /** A byte string in hexadecimal: exactly two digits for each byte. */
  ghost predicate HexOf(s: string, bytes: seq<byte>) {
    && |s| == 2 * |bytes| && AllDigits(s, 16)
    && forall i :: 0 <= i < |bytes| ==> bytes[i] == CharDigit(s[2 * i]).value * 16 + CharDigit(s[2 * i + 1]).value
  }

  /** `parse_hex`: succeeds iff the trimmed text is hexadecimal of the right length, and gives its bytes. */
  method ParseHex(s: string, size: nat) returns (r: Option<seq<byte>>)
    ensures r.Some? ==> |r.value| == size && HexOf(Trim(s), r.value)
    ensures r.Some? <==> |Trim(s)| == 2 * size && AllDigits(Trim(s), 16)
  {
    var t := Trim(s);
    if |t| != size * 2 {
      return None;
    }
    var buf := new byte[size](_ => 0);
    for i := 0 to size
      invariant forall j :: 0 <= j < 2 * i ==> CharDigit(t[j]).Some?
      invariant forall j :: 0 <= j < i ==> buf[j] == CharDigit(t[2 * j]).value * 16 + CharDigit(t[2 * j + 1]).value
    {
      var hi, lo := CharDigit(t[2 * i]), CharDigit(t[2 * i + 1]);
      if hi.None? || lo.None? {
        assert !AllDigits(t, 16);
        return None;
      }
      var h: int := hi.value;
      buf[i] := h * 16 + lo.value;
      forall j | 0 <= j < 2 * (i + 1) ensures CharDigit(t[j]).Some? {
        assert j < 2 * i || j == 2 * i || j == 2 * i + 1;
      }
    }
    return Some(buf[..]);
  }

  /** The bytes are determined by the text. */
  lemma HexOfUnique(s: string, a: seq<byte>, b: seq<byte>)
    requires HexOf(s, a) && HexOf(s, b)
    ensures a == b
  {
  }
}
