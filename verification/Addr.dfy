/** IP addresses and the text the standard library prints for them (Rust's `Display` for `IpAddr`). */
module Addr {
  import opened Wire
  import opened Text

  type Octets4 = o: seq<byte> | |o| == 4 witness [0, 0, 0, 0]
  type Octets16 = o: seq<byte> | |o| == 16 witness [0, 0, 0, 0, 0, 0, 0, 0, 0, 0, 0, 0, 0, 0, 0, 0]

  datatype IpAddr = V4(o4: Octets4) | V6(o6: Octets16)

  /** IPv4-mapped IPv6 address, section 2.5.5.2 of RFC 4291. */
  predicate IsMapped(o: Octets16) {
    o[..12] == [0, 0, 0, 0, 0, 0, 0, 0, 0, 0, 0xFF, 0xFF]
  }

  /** The address with an IPv4-mapped IPv6 address replaced by the IPv4 address in it. */
  function Normal(a: IpAddr): IpAddr {
    if a.V6? && IsMapped(a.o6) then V4(a.o6[12..]) else a
  }

  /**
   * Packets from the host with address `a` have source address `src`: the same octets, or, for an
   * IPv4-mapped IPv6 address (section 2.5.5.2 of RFC 4291), the IPv4 address in its last four octets.
   */
  ghost predicate SameHost(a: IpAddr, src: IpAddr) {
    || (a.V4? && src.V4? && a.o4 == src.o4)
    || (a.V6? && src.V4? && a.o6 == [0, 0, 0, 0, 0, 0, 0, 0, 0, 0, 0xFF, 0xFF] + src.o4)
    || (a.V6? && src.V6? && a.o6 == src.o6 && a.o6[..12] != [0, 0, 0, 0, 0, 0, 0, 0, 0, 0, 0xFF, 0xFF])
  }

  /** Rules are written for the address that packets of the host carry. */
  lemma {:induction false} NormalIff(a: IpAddr, src: IpAddr)
    ensures Normal(a) == src <==> SameHost(a, src)
  {
    if a.V6? {
      assert a.o6 == a.o6[..12] + a.o6[12..];
      if src.V4? {
        var m: seq<byte> := [0, 0, 0, 0, 0, 0, 0, 0, 0, 0, 0xFF, 0xFF];
        assert (m + src.o4)[..12] == m && (m + src.o4)[12..] == src.o4;
      }
    }
  }

  // ---------- Text form ----------

  /** Each number printed in the given base. */
  function Numbers(ns: seq<nat>, base: nat): (f: seq<string>)
    requires 2 <= base <= 16
    ensures |f| == |ns| && forall i :: 0 <= i < |f| ==> f[i] == Print(ns[i], base)
  {
    seq(|ns|, i requires 0 <= i < |ns| => Print(ns[i], base))
  }

  lemma {:induction false} NumbersInjective(m: seq<nat>, n: seq<nat>, base: nat)
    requires 2 <= base <= 16 && Numbers(m, base) == Numbers(n, base)
    ensures m == n
  {
    assert |m| == |Numbers(m, base)| == |n|;
    forall i | 0 <= i < |m| ensures m[i] == n[i] {
      assert Numbers(m, base)[i] == Numbers(n, base)[i];
      PrintInjective(m[i], n[i], base);
    }
  }

  function V4Text(o: Octets4): string {
    Join(Numbers(o, 10), '.')
  }

  lemma {:induction false} V4TextInjective(o: Octets4, p: Octets4)
    requires V4Text(o) == V4Text(p)
    ensures o == p
  {
    assert FreeOf(Numbers(o, 10), '.') && FreeOf(Numbers(p, 10), '.');
    JoinInjective(Numbers(o, 10), Numbers(p, 10), '.');
    NumbersInjective(o, p, 10);
  }

  lemma {:induction false} V4TextChars(o: Octets4, c: char)
    requires c in V4Text(o)
    ensures c == '.' || CharDigit(c).Some?
  {
    JoinChars(Numbers(o, 10), '.', c);
  }

  /** The eight 16-bit groups of an IPv6 address. */
  function Segments(o: Octets16): (s: seq<nat>)
    ensures |s| == 8
  {
    seq(8, i requires 0 <= i < 8 => U16Value(o[2 * i..2 * i + 2]))
  }

  lemma {:induction false} SegmentsInjective(o: Octets16, p: Octets16)
    requires Segments(o) == Segments(p)
    ensures o == p
  {
    forall i | 0 <= i < 8 ensures o[2 * i..2 * i + 2] == p[2 * i..2 * i + 2] {
      assert Segments(o)[i] == Segments(p)[i];
      U16BytesOfValue(o[2 * i..2 * i + 2]);
      U16BytesOfValue(p[2 * i..2 * i + 2]);
    }
    forall k | 0 <= k < 16 ensures o[k] == p[k] {
      assert o[k] == o[2 * (k / 2)..2 * (k / 2) + 2][k % 2];
      assert p[k] == p[2 * (k / 2)..2 * (k / 2) + 2][k % 2];
    }
  }

  datatype Span = Span(start: nat, len: nat) {
    ghost predicate ZeroIn(s: seq<nat>) {
      start + len <= |s| && forall i :: start <= i < start + len ==> s[i] == 0
    }
  }

  /** The first longest run of zero groups, by one scan. */
  function LongestZeros(s: seq<nat>, i: nat, current: Span, longest: Span): (r: Span)
    requires i <= |s| && longest.ZeroIn(s) && current.ZeroIn(s)
    requires current.len > 0 ==> current.start + current.len == i
    ensures r.ZeroIn(s)
    decreases |s| - i
  {
    if i == |s| then longest
    else if s[i] != 0 then LongestZeros(s, i + 1, Span(0, 0), longest)
    else
      var c := if current.len == 0 then Span(i, 1) else current.(len := current.len + 1);
      LongestZeros(s, i + 1, c, if c.len > longest.len then c else longest)
  }

  /** The run of zeros that the text replaces by "::" when it is longer than one. */
  function Gap(s: seq<nat>): (r: Span)
    ensures r.ZeroIn(s)
  {
    LongestZeros(s, 0, Span(0, 0), Span(0, 0))
  }

  /** `r` is the longest run of zeros that ends by `i`, and the first one of that length. */
  ghost predicate Best(s: seq<nat>, i: nat, r: Span) {
    && r.ZeroIn(s) && (r.len > 0 ==> r.start + r.len <= i)
    && forall z: Span :: z.ZeroIn(s) && z.len > 0 && z.start + z.len <= i ==>
         z.len < r.len || (z.len == r.len && r.start <= z.start)
  }

  /** A group that is not zero ends no run. */
  lemma {:induction false} BestKept(s: seq<nat>, i: nat, longest: Span)
    requires i < |s| && s[i] != 0 && Best(s, i, longest)
    ensures Best(s, i + 1, longest)
  {
    forall z: Span | z.ZeroIn(s) && z.len > 0 && z.start + z.len <= i + 1 ensures z.start + z.len <= i {
    }
  }

  /** The run that ends with this group is compared with the longest one so far. */
  lemma {:induction false} BestCompared(s: seq<nat>, i: nat, c: Span, longest: Span)
    requires i < |s| && Best(s, i, longest)
    requires c.ZeroIn(s) && c.len > 0 && c.start + c.len == i + 1 && (c.start > 0 ==> s[c.start - 1] != 0)
    ensures Best(s, i + 1, if c.len > longest.len then c else longest)
  {
    forall z: Span | z.ZeroIn(s) && z.len > 0 && z.start + z.len == i + 1 ensures c.start <= z.start && z.len <= c.len {
      RunStarts(s, c, z);
    }
  }

  lemma {:induction false} RunStarts(s: seq<nat>, c: Span, z: Span)
    requires c.ZeroIn(s) && z.ZeroIn(s) && c.len > 0 && z.start + z.len == c.start + c.len
    requires c.start > 0 ==> s[c.start - 1] != 0
    ensures c.start <= z.start
  {
  }

  lemma {:induction false} ScanFindsBest(s: seq<nat>, i: nat, current: Span, longest: Span)
    requires i <= |s| && Best(s, i, longest) && current.ZeroIn(s)
    requires current.len > 0 ==> current.start + current.len == i && (current.start > 0 ==> s[current.start - 1] != 0)
    requires current.len == 0 && i > 0 ==> s[i - 1] != 0
    ensures Best(s, |s|, LongestZeros(s, i, current, longest))
    decreases |s| - i
  {
    if i < |s| {
      if s[i] != 0 {
        BestKept(s, i, longest);
        ScanFindsBest(s, i + 1, Span(0, 0), longest);
      } else {
        var c := if current.len == 0 then Span(i, 1) else current.(len := current.len + 1);
        BestCompared(s, i, c, longest);
        ScanFindsBest(s, i + 1, c, if c.len > longest.len then c else longest);
      }
    }
  }

  /** What "::" replaces: the longest run of zero groups, and of several the first (section 4.2.3 of RFC 5952). */
  lemma {:induction false} GapIsBest(s: seq<nat>)
    ensures Best(s, |s|, Gap(s))
  {
    ScanFindsBest(s, 0, Span(0, 0), Span(0, 0));
  }

  function Groups(s: seq<nat>): string {
    if s == [] then "" else Join(Numbers(s, 16), ':')
  }

  /** The groups as they are shown: all of them, or the two sides of a cut-out run of zeros. */
  datatype Shape = Whole(all: seq<nat>) | Cut(left: seq<nat>, right: seq<nat>)

  function ShapeOf(s: seq<nat>): Shape {
    var z := Gap(s);
    if z.len > 1 then Cut(s[..z.start], s[z.start + z.len..]) else Whole(s)
  }

  /** "::" is used iff two zero groups stand next to each other. */
  lemma {:induction false} CutIff(s: seq<nat>)
    ensures ShapeOf(s).Cut? <==> exists i :: 0 <= i < |s| - 1 && s[i] == 0 == s[i + 1]
  {
    GapIsBest(s);
    var z := Gap(s);
    if z.len > 1 {
      assert s[z.start] == 0 == s[z.start + 1];
    }
    if i :| 0 <= i < |s| - 1 && s[i] == 0 == s[i + 1] {
      assert Span(i, 2).ZeroIn(s);
    }
  }

  function ShapeText(p: Shape): string {
    match p
    case Whole(s) => Groups(s)
    case Cut(l, r) => Groups(l) + "::" + Groups(r)
  }

  function V6Text(o: Octets16): string {
    if IsMapped(o) then "::ffff:" + V4Text(o[12..]) else ShapeText(ShapeOf(Segments(o)))
  }

  function AddrText(a: IpAddr): string {
    match a
    case V4(o) => V4Text(o)
    case V6(o) => V6Text(o)
  }

  // ---------- The text determines the address ----------

  /** The groups on one side of "::", with one empty field when there are none. */
  ghost function Side(s: seq<nat>): seq<string> {
    if s == [] then [""] else Numbers(s, 16)
  }

  ghost function ShapeFields(p: Shape): seq<string> {
    match p
    case Whole(s) => Side(s)
    case Cut(l, r) => Side(l) + [""] + Side(r)
  }

  /** Splitting the text of `a` at every ':' gives these fields. */
  ghost function Fields(a: IpAddr): seq<string> {
    if a.V4? then [V4Text(a.o4)]
    else if IsMapped(a.o6) then ["", "", "ffff", V4Text(a.o6[12..])]
    else ShapeFields(ShapeOf(Segments(a.o6)))
  }

  lemma {:induction false} JoinGap(f: seq<string>, g: seq<string>)
    requires f != [] && g != []
    ensures Join(f + [""] + g, ':') == Join(f, ':') + "::" + Join(g, ':')
  {
    JoinConcat(f + [""], g, ':');
    JoinConcat(f, [""], ':');
    assert Join(f, ':') + ":" + "" + ":" == Join(f, ':') + "::";
  }

  /** Splitting `text` at every ':' gives `fields`. */
  ghost predicate SplitsTo(text: string, fields: seq<string>) {
    fields != [] && FreeOf(fields, ':') && Join(fields, ':') == text
  }

  lemma {:induction false} FreeOfConcat(f: seq<string>, g: seq<string>, sep: char)
    requires FreeOf(f, sep) && FreeOf(g, sep)
    ensures FreeOf(f + g, sep)
  {
  }

  lemma {:induction false} SideSplits(s: seq<nat>)
    ensures SplitsTo(Groups(s), Side(s))
  {
  }

  lemma {:induction false} ShapeSplits(p: Shape)
    ensures SplitsTo(ShapeText(p), ShapeFields(p))
  {
    match p
    case Whole(s) => SideSplits(s);
    case Cut(l, r) =>
      SideSplits(l);
      SideSplits(r);
      FreeOfConcat(Side(l), [""], ':');
      FreeOfConcat(Side(l) + [""], Side(r), ':');
      JoinGap(Side(l), Side(r));
  }

  lemma {:induction false} MappedText(v: string)
    ensures Join(["", "", "ffff", v], ':') == "::ffff:" + v
  {
    JoinConcat(["", "", "ffff"], [v], ':');
    JoinConcat(["", ""], ["ffff"], ':');
    assert ["", "", "ffff"] + [v] == ["", "", "ffff", v] && ["", ""] + ["ffff"] == ["", "", "ffff"];
    assert Join(["", ""], ':') == ":";
    assert ":" + ":" + "ffff" + ":" + v == "::ffff:" + v;
  }

  lemma {:induction false} FieldsSplit(a: IpAddr)
    ensures SplitsTo(AddrText(a), Fields(a))
  {
    if a.V4? {
      V4NoColon(a.o4);
    } else if IsMapped(a.o6) {
      V4NoColon(a.o6[12..]);
      MappedText(V4Text(a.o6[12..]));
    } else {
      ShapeSplits(ShapeOf(Segments(a.o6)));
    }
  }

  lemma {:induction false} V4NoColon(o: Octets4)
    ensures ':' !in V4Text(o)
  {
    if ':' in V4Text(o) {
      V4TextChars(o, ':');
    }
  }

  /** A side can be read back: its numbers, and where it ends when an empty field follows. */
  lemma {:induction false} SideInjective(s: seq<nat>, t: seq<nat>)
    requires Side(s) == Side(t)
    ensures s == t
  {
    assert s != [] ==> Side(s)[0] != "";
    assert t != [] ==> Side(t)[0] != "";
    if s != [] && t != [] {
      NumbersInjective(s, t, 16);
    }
  }

  lemma {:induction false} GapInjective(l: seq<nat>, r: seq<nat>, l': seq<nat>, r': seq<nat>)
    requires Side(l) + [""] + Side(r) == Side(l') + [""] + Side(r')
    ensures l == l' && r == r'
  {
    var f := Side(l) + [""] + Side(r);
    assert f[0] == Side(l)[0] && f[0] == Side(l')[0];
    assert l == [] <==> l' == [];
    assert "" !in Numbers(l, 16) && "" !in Numbers(l', 16);
    if l == [] {
      assert Side(l) == Side(l');
      assert f[2..] == Side(r) && f[2..] == Side(r');
    } else {
      SplitUnique("", Numbers(l, 16), Side(r), Numbers(l', 16), Side(r'));
    }
    SideInjective(l, l');
    SideInjective(r, r');
  }

  /** Zeros between two known sides can be filled in again. */
  lemma {:induction false} GapFilled(s: seq<nat>, y: Span, t: seq<nat>, z: Span)
    requires |s| == |t| && y.ZeroIn(s) && z.ZeroIn(t)
    requires s[..y.start] == t[..z.start] && s[y.start + y.len..] == t[z.start + z.len..]
    ensures s == t
  {
    assert |s[..y.start]| == y.start && |t[..z.start]| == z.start;
    assert |s[y.start + y.len..]| == |s| - y.start - y.len;
    var e := y.start + y.len;
    forall i | 0 <= i < |s| ensures s[i] == t[i] {
      if i < y.start {
        assert s[..y.start][i] == t[..y.start][i];
      } else if i >= e {
        assert s[e..][i - e] == t[e..][i - e];
      }
    }
  }

  lemma {:induction false} CutShows(p: Shape)
    requires p.Whole? ==> p.all != []
    ensures p.Cut? <==> "" in ShapeFields(p)
  {
    if p.Cut? {
      assert ShapeFields(p)[|Side(p.left)|] == "";
    }
  }

  lemma {:induction false} ShapeFieldsInjective(p: Shape, q: Shape)
    requires (p.Whole? ==> p.all != []) && (q.Whole? ==> q.all != [])
    requires ShapeFields(p) == ShapeFields(q)
    ensures p == q
  {
    CutShows(p);
    CutShows(q);
    if p.Cut? {
      GapInjective(p.left, p.right, q.left, q.right);
    } else {
      SideInjective(p.all, q.all);
    }
  }

  lemma {:induction false} ShapeInjective(s: seq<nat>, t: seq<nat>)
    requires |s| == |t| && ShapeOf(s) == ShapeOf(t)
    ensures s == t
  {
    if ShapeOf(s).Cut? {
      GapFilled(s, Gap(s), t, Gap(t));
    }
  }

  /** The kind of an address shows in its fields. */
  lemma {:induction false} FieldsKind(a: IpAddr)
    ensures a.V4? <==> |Fields(a)| == 1
    ensures (a.V6? && IsMapped(a.o6)) <==> (|Fields(a)| > 1 && '.' in Fields(a)[|Fields(a)| - 1])
  {
    if a.V6? && IsMapped(a.o6) {
      var f := Numbers(a.o6[12..], 10);
      assert V4Text(a.o6[12..])[|f[0]|] == '.';
    }
  }

  lemma {:induction false} AddrTextInjective(a: IpAddr, b: IpAddr)
    requires AddrText(a) == AddrText(b)
    ensures a == b
  {
    FieldsSplit(a);
    FieldsSplit(b);
    JoinInjective(Fields(a), Fields(b), ':');
    FieldsKind(a);
    FieldsKind(b);
    if a.V4? {
      V4TextInjective(a.o4, b.o4);
    } else if IsMapped(a.o6) {
      assert Fields(a)[3] == Fields(b)[3];
      V4TextInjective(a.o6[12..], b.o6[12..]);
      assert a.o6 == a.o6[..12] + a.o6[12..] && b.o6 == b.o6[..12] + b.o6[12..];
    } else {
      var s, t := Segments(a.o6), Segments(b.o6);
      ShapeFieldsInjective(ShapeOf(s), ShapeOf(t));
      ShapeInjective(s, t);
      SegmentsInjective(a.o6, b.o6);
    }
  }

  lemma {:induction false} SideChars(s: seq<nat>, i: nat, c: char)
    requires i < |Side(s)| && c in Side(s)[i]
    ensures CharDigit(c).Some?
  {
  }

  lemma {:induction false} GapChars(f: seq<string>, g: seq<string>, i: nat, c: char)
    requires i < |f + [""] + g| && c in (f + [""] + g)[i]
    ensures if i < |f| then c in f[i] else i > |f| && c in g[i - |f| - 1]
  {
  }

  lemma {:induction false} ShapeChars(p: Shape, i: nat, c: char)
    requires i < |ShapeFields(p)| && c in ShapeFields(p)[i]
    ensures CharDigit(c).Some?
  {
    match p
    case Whole(s) => SideChars(s, i, c);
    case Cut(l, r) =>
      GapChars(Side(l), Side(r), i, c);
      if i < |Side(l)| {
        SideChars(l, i, c);
      } else {
        SideChars(r, i - |Side(l)| - 1, c);
      }
  }

  lemma {:induction false} AddrTextChars(a: IpAddr, c: char)
    requires c in AddrText(a)
    ensures c == '.' || c == ':' || CharDigit(c).Some?
  {
    FieldsSplit(a);
    JoinChars(Fields(a), ':', c);
    if c != ':' {
      var i :| 0 <= i < |Fields(a)| && c in Fields(a)[i];
      if a.V4? {
        V4TextChars(a.o4, c);
      } else if IsMapped(a.o6) {
        if i == 3 {
          V4TextChars(a.o6[12..], c);
        }
      } else {
        ShapeChars(ShapeOf(Segments(a.o6)), i, c);
      }
    }
  }
}
