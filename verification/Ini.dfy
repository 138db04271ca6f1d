/** The `.ini` file parser. */
module Inis {
  import opened Wire
  import opened Strings

  type Options = map<string, string>
  type Sections = map<string, Options>

  /** What one line is. */
  datatype Line = Blank | Section(name: string) | Entry(name: string, value: string) | Bad

  /** Classification of a line on its own; option names are never empty. */
  function Classify(line: string): (r: Line)
    ensures r.Section? || r.Entry? ==> r.name != ""
  {
    var l := TrimStart(line);
    if l == "" || l[0] == '#' then Blank
    else if l[0] == '[' then
      var t := TrimEnd(l);
      if t[|t| - 1] == ']' && |t| > 2 then Section(t[1..|t| - 1]) else Bad
    else if '=' in l && IndexOf(l, '=') > 0 then
      var i := IndexOf(l, '=');
      Entry(TrimEnd(l[..i]), l[i + 1..])
    else Bad
  }

  lemma StartOf(line: string, a: string, l: string)
    requires line == a + l && Spaces(a) && (l != "" ==> !IsSpace(l[0]))
    ensures TrimStart(line) == l
  {
    TrimStartSpaces(a, l);
  }

  lemma TrimmedStart(line: string) returns (a: string)
    ensures line == a + TrimStart(line) && Spaces(a)
  {
    a := TrimStartCuts(line);
  }

  /** Blank lines: nothing but white space, or a comment after it. */
  lemma BlankIff(line: string)
    ensures Classify(line) == Blank <==>
              exists a, l :: line == a + l && Spaces(a) && (l == "" || l[0] == '#')
  {
    if Classify(line) == Blank {
      var a := TrimmedStart(line);
    }
    forall a, l | line == a + l && Spaces(a) && (l == "" || l[0] == '#') ensures Classify(line) == Blank {
      StartOf(line, a, l);
    }
  }

  /** Section lines: a name in brackets, with white space around. */
  lemma SectionIff(line: string, name: string)
    ensures Classify(line) == Section(name) <==>
              name != "" && exists a, b :: line == a + ("[" + name + "]" + b) && Spaces(a) && Spaces(b)
  {
    if Classify(line) == Section(name) {
      var a, b := SectionShape(line, name);
    }
    forall a, b | name != "" && line == a + ("[" + name + "]" + b) && Spaces(a) && Spaces(b)
      ensures Classify(line) == Section(name)
    {
      SectionReads(line, a, name, b);
    }
  }

  lemma SectionShape(line: string, name: string) returns (a: string, b: string)
    requires Classify(line) == Section(name)
    ensures name != "" && line == a + ("[" + name + "]" + b) && Spaces(a) && Spaces(b)
  {
    a := TrimmedStart(line);
    var l := TrimStart(line);
    b := TrimEndCuts(l);
    Bracketed(TrimEnd(l), name);
  }

  lemma Bracketed(t: string, name: string)
    requires |t| > 2 && t[0] == '[' && t[|t| - 1] == ']' && name == t[1..|t| - 1]
    ensures t == "[" + name + "]"
  {
  }

  lemma SectionReads(line: string, a: string, name: string, b: string)
    requires name != "" && line == a + ("[" + name + "]" + b) && Spaces(a) && Spaces(b)
    ensures Classify(line) == Section(name)
  {
    var t := "[" + name + "]";
    StartOf(line, a, t + b);
    TrimEndSpaces(t, b);
    assert t[1..|t| - 1] == name;
  }

  /** An option name: not empty, without '=', and not the start of a comment or section line. */
  predicate OptionName(name: string) {
    name != "" && Tight(name) && '=' !in name && name[0] != '#' && name[0] != '['
  }

  /** Option lines: a name, '=' and a value that is taken as it is; white space around the name does not count. */
  lemma EntryIff(line: string, name: string, value: string)
    ensures Classify(line) == Entry(name, value) <==>
              OptionName(name) && exists a, b :: line == a + (name + b + ['='] + value) && Spaces(a) && Spaces(b)
  {
    if Classify(line) == Entry(name, value) {
      var a, b := EntryShape(line, name, value);
    }
    forall a, b | OptionName(name) && line == a + (name + b + ['='] + value) && Spaces(a) && Spaces(b)
      ensures Classify(line) == Entry(name, value)
    {
      EntryReads(line, a, name, b, value);
    }
  }

  lemma EntryShape(line: string, name: string, value: string) returns (a: string, b: string)
    requires Classify(line) == Entry(name, value)
    ensures OptionName(name) && line == a + (name + b + ['='] + value) && Spaces(a) && Spaces(b)
  {
    a := TrimmedStart(line);
    var l := TrimStart(line);
    var i := IndexOf(l, '=');
    b := TrimEndCuts(l[..i]);
    CutAt(l, i);
    NameOf(l[..i], name);
  }

  lemma CutAt(l: string, i: nat)
    requires i < |l| && l[i] == '='
    ensures l == l[..i] + ['='] + l[i + 1..]
  {
  }

  lemma NameOf(x: string, name: string)
    requires x != "" && !IsSpace(x[0]) && '=' !in x && x[0] != '#' && x[0] != '[' && name == TrimEnd(x)
    ensures OptionName(name)
  {
    assert name <= x && name != "";
    assert name[0] == x[0];
  }

  lemma EntryReads(line: string, a: string, name: string, b: string, value: string)
    requires OptionName(name) && line == a + (name + b + ['='] + value) && Spaces(a) && Spaces(b)
    ensures Classify(line) == Entry(name, value)
  {
    var l := name + b + ['='] + value;
    assert l[0] == name[0];
    StartOf(line, a, l);
    IndexOfConcat(name + b, '=', value);
    assert l[..|name + b|] == name + b && l[|name + b| + 1..] == value;
    TrimEndSpaces(name, b);
  }

  function ClassifyAll(lines: seq<string>): (items: seq<Line>)
    ensures |items| == |lines| && forall i :: 0 <= i < |lines| ==> items[i] == Classify(lines[i])
  {
    seq(|lines|, i requires 0 <= i < |lines| => Classify(lines[i]))
  }

  // ---------- What a file means ----------

  /** The section that line `i` is in: the nearest section line before it. */
  function SectionAt(items: seq<Line>, i: nat): Option<string>
    requires i <= |items|
  {
    if i == 0 then None
    else if items[i - 1].Section? then Some(items[i - 1].name)
    else SectionAt(items, i - 1)
  }

  /** Line `i` gives option `o` of section `s` a value. */
  ghost predicate Defines(items: seq<Line>, s: string, o: string, i: nat) {
    i < |items| && items[i].Entry? && items[i].name == o && SectionAt(items, i) == Some(s)
  }

  /** The last line for option `o` in section `s`. */
  ghost predicate LastDefines(items: seq<Line>, s: string, o: string, i: nat) {
    Defines(items, s, o, i) && forall j :: i < j < |items| ==> !Defines(items, s, o, j)
  }

  /** `v` is the value that the file gives to option `o` of section `s`. */
  ghost predicate HasValue(items: seq<Line>, s: string, o: string, v: string) {
    exists i: nat :: LastDefines(items, s, o, i) && items[i].value == v
  }

  ghost predicate LineOk(items: seq<Line>, i: nat)
    requires i < |items|
  {
    !items[i].Bad? && (items[i].Entry? ==> SectionAt(items, i).Some?)
  }

  /** No malformed line, no option outside a section, no section twice. */
  ghost predicate WellFormed(items: seq<Line>) {
    && (forall i: nat :: i < |items| ==> LineOk(items, i))
    && (forall i, j ::
          0 <= i < j < |items| && items[i].Section? && items[j].Section? ==> items[i].name != items[j].name)
  }

  /** The tables hold, for every section and option, the value of its last line; and nothing else. */
  ghost predicate Represents(t: Sections, items: seq<Line>) {
    SameSections(t, items) && ValuesLast(t, items) && Complete(t, items)
  }

  ghost predicate SameSections(t: Sections, items: seq<Line>) {
    forall s :: s in t <==> Section(s) in items
  }

  ghost predicate ValuesLast(t: Sections, items: seq<Line>) {
    forall s, o :: s in t && o in t[s] ==> HasValue(items, s, o, t[s][o])
  }

  ghost predicate Complete(t: Sections, items: seq<Line>) {
    forall s, o, i: nat :: Defines(items, s, o, i) ==> s in t && o in t[s]
  }

  // ---------- Extending by one line ----------

  lemma {:induction false} SectionAtPrefix(items: seq<Line>, more: seq<Line>, i: nat)
    requires i <= |items|
    ensures SectionAt(items + more, i) == SectionAt(items, i)
  {
    if i > 0 {
      SectionAtPrefix(items, more, i - 1);
    }
  }

  lemma DefinesSnoc(items: seq<Line>, l: Line, s: string, o: string, i: nat)
    ensures i < |items| ==> (Defines(items + [l], s, o, i) <==> Defines(items, s, o, i))
    ensures Defines(items + [l], s, o, |items|) <==> l.Entry? && l.name == o && SectionAt(items, |items|) == Some(s)
  {
    if i <= |items| {
      SectionAtPrefix(items, [l], i);
    }
    SectionAtPrefix(items, [l], |items|);
  }

  lemma LastDefinesSnoc(items: seq<Line>, l: Line, s: string, o: string, i: nat)
    requires LastDefines(items, s, o, i)
    requires !(l.Entry? && l.name == o && SectionAt(items, |items|) == Some(s))
    ensures LastDefines(items + [l], s, o, i)
  {
    forall j | i <= j < |items + [l]| ensures Defines(items + [l], s, o, j) <==> j == i {
      DefinesSnoc(items, l, s, o, j);
    }
  }

  lemma LineOkPrefix(items: seq<Line>, more: seq<Line>, i: nat)
    requires i < |items|
    ensures LineOk(items + more, i) <==> LineOk(items, i)
  {
    SectionAtPrefix(items, more, i);
  }

  lemma WellFormedSnoc(items: seq<Line>, l: Line)
    requires WellFormed(items)
    ensures WellFormed(items + [l]) <==>
              && !l.Bad? && (l.Entry? ==> SectionAt(items, |items|).Some?)
              && (l.Section? ==> l !in items)
  {
    var all := items + [l];
    forall i: nat | i < |items| ensures LineOk(all, i) {
      LineOkPrefix(items, [l], i);
    }
    SectionAtPrefix(items, [l], |items|);
    assert LineOk(all, |items|) <==> !l.Bad? && (l.Entry? ==> SectionAt(items, |items|).Some?);
    assert all[|items|] == l && forall i :: 0 <= i < |items| ==> all[i] == items[i];
  }

  lemma BlankStep(t: Sections, items: seq<Line>)
    requires Represents(t, items)
    ensures Represents(t, items + [Blank])
  {
    OtherStep(t, items, Blank);
    assert forall s :: Section(s) in items + [Blank] <==> Section(s) in items;
  }

  /** A line that is no option: known values stay, nothing new is defined. */
  lemma OtherStep(t: Sections, items: seq<Line>, l: Line)
    requires ValuesLast(t, items) && Complete(t, items) && !l.Entry?
    ensures ValuesLast(t, items + [l]) && Complete(t, items + [l])
  {
    var all := items + [l];
    forall s, o | s in t && o in t[s] ensures HasValue(all, s, o, t[s][o]) {
      var i: nat :| LastDefines(items, s, o, i) && items[i].value == t[s][o];
      LastDefinesSnoc(items, l, s, o, i);
      assert all[i] == items[i];
    }
    forall s, o, i: nat | Defines(all, s, o, i) ensures s in t && o in t[s] {
      DefinesSnoc(items, l, s, o, i);
    }
  }

  lemma SectionStep(t: Sections, items: seq<Line>, name: string)
    requires Represents(t, items) && name !in t
    ensures Represents(t[name := map[]], items + [Section(name)])
  {
    OtherStep(t, items, Section(name));
    assert forall s :: Section(s) in items + [Section(name)] <==> Section(s) in items || s == name;
  }

  /** After an option line: its own option has its value, all others keep theirs. */
  lemma EntryValues(items: seq<Line>, s: string, name: string, value: string, q: string, o: string, v: string)
    requires SectionAt(items, |items|) == Some(s)
    ensures HasValue(items + [Entry(name, value)], s, name, value)
    ensures (q != s || o != name) && HasValue(items, q, o, v) ==> HasValue(items + [Entry(name, value)], q, o, v)
  {
    var l := Entry(name, value);
    var all := items + [l];
    DefinesSnoc(items, l, s, name, |items|);
    assert LastDefines(all, s, name, |items|) && all[|items|] == l;
    if (q != s || o != name) && HasValue(items, q, o, v) {
      var i: nat :| LastDefines(items, q, o, i) && items[i].value == v;
      LastDefinesSnoc(items, l, q, o, i);
      assert all[i] == items[i];
    }
  }

  lemma EntryValuesLast(t: Sections, items: seq<Line>, s: string, name: string, value: string)
    requires ValuesLast(t, items) && SectionAt(items, |items|) == Some(s) && s in t
    ensures ValuesLast(t[s := t[s][name := value]], items + [Entry(name, value)])
  {
    var t' := t[s := t[s][name := value]];
    forall q, o | q in t' && o in t'[q] ensures HasValue(items + [Entry(name, value)], q, o, t'[q][o]) {
      EntryValues(items, s, name, value, q, o, t'[q][o]);
    }
  }

  lemma EntryComplete(t: Sections, items: seq<Line>, s: string, name: string, value: string)
    requires Complete(t, items) && SectionAt(items, |items|) == Some(s) && s in t
    ensures Complete(t[s := t[s][name := value]], items + [Entry(name, value)])
  {
    var t' := t[s := t[s][name := value]];
    forall q, o, i: nat | Defines(items + [Entry(name, value)], q, o, i) ensures q in t' && o in t'[q] {
      DefinesSnoc(items, Entry(name, value), q, o, i);
    }
  }

  lemma EntryStep(t: Sections, items: seq<Line>, s: string, name: string, value: string)
    requires Represents(t, items) && SectionAt(items, |items|) == Some(s) && s in t
    ensures Represents(t[s := t[s][name := value]], items + [Entry(name, value)])
  {
    EntryValuesLast(t, items, s, name, value);
    EntryComplete(t, items, s, name, value);
    assert forall q :: Section(q) in items + [Entry(name, value)] <==> Section(q) in items;
  }

  /** What is known after the lines `items`. */
  ghost predicate Parsed(t: Sections, inSection: Option<string>, items: seq<Line>) {
    && WellFormed(items) && Represents(t, items)
    && inSection == SectionAt(items, |items|) && (inSection.Some? ==> inSection.value in t)
  }

  /** One turn of the parser loop. */
  method AddLine(t: Sections, inSection: Option<string>, line: string, ghost seen: seq<Line>)
    returns (ok: bool, t': Sections, inSection': Option<string>)
    requires Parsed(t, inSection, seen)
    ensures ok <==> WellFormed(seen + [Classify(line)])
    ensures ok ==> Parsed(t', inSection', seen + [Classify(line)])
  {
    t', inSection' := t, inSection;
    var item := Classify(line);
    WellFormedSnoc(seen, item);
    SectionAtPrefix(seen, [item], |seen|);
    match item {
      case Blank =>
        BlankStep(t, seen);
      case Bad =>
        return false, t, inSection;
      case Section(name) =>
        if name in t {
          return false, t, inSection;
        }
        SectionStep(t, seen, name);
        t' := t[name := map[]];
        inSection' := Some(name);
      case Entry(name, value) =>
        if inSection.None? {
          return false, t, inSection;
        }
        EntryStep(t, seen, inSection.value, name, value);
        t' := t[inSection.value := t[inSection.value][name := value]];
    }
    ok := true;
  }

  /** The parser loop, on a table of its own. */
  method ParseLines(lines: seq<string>) returns (ok: bool, table: Sections)
    ensures ok <==> WellFormed(ClassifyAll(lines))
    ensures ok ==> Represents(table, ClassifyAll(lines))
  {
    table := map[];
    var inSection: Option<string> := None;
    ghost var seen: seq<Line> := [];
    for i := 0 to |lines|
      invariant Parsed(table, inSection, seen) && seen == ClassifyAll(lines[..i])
    {
      ClassifySnoc(lines, i);
      ok, table, inSection := AddLine(table, inSection, lines[i], seen);
      seen := seen + [Classify(lines[i])];
      if !ok {
        WellFormedPrefix(ClassifyAll(lines), i + 1);
        return false, table;
      }
    }
    assert lines[..|lines|] == lines;
    ok := true;
  }

  lemma ClassifySnoc(lines: seq<string>, i: nat)
    requires i < |lines|
    ensures ClassifyAll(lines[..i + 1]) == ClassifyAll(lines[..i]) + [Classify(lines[i])]
    ensures ClassifyAll(lines)[..i + 1] == ClassifyAll(lines[..i + 1])
  {
  }

  // ---------- The parser ----------

  class Ini {
    var sections: Sections

    constructor ()
      ensures sections == map[]
    {
      sections := map[];
    }

    /**
     * Parse a whole file. It is accepted iff it is well formed; then the tables represent it.
     * On any error the previous contents stay.
     */
    method ParseStr(content: string) returns (good: bool)
      modifies this
      ensures good <==> WellFormed(ClassifyAll(Lines(content)))
      ensures good ==> Represents(sections, ClassifyAll(Lines(content)))
      ensures !good ==> sections == old(sections)
    {
      var ok, table := ParseLines(Lines(content));
      if ok {
        sections := table;
      }
      return ok;
    }

    /** Look up one option. */
    method Get(section: string, option: string) returns (r: Option<string>)
      ensures r.Some? <==> section in sections && option in sections[section]
      ensures r.Some? ==> r.value == sections[section][option]
    {
      if section in sections {
        if option in sections[section] {
          return Some(sections[section][option]);
        }
      }
      return None;
    }
  }

  lemma WellFormedPrefix(items: seq<Line>, k: nat)
    requires k <= |items|
    ensures WellFormed(items) ==> WellFormed(items[..k])
  {
    assert items[..k] + items[k..] == items;
    forall i: nat | i < k ensures LineOk(items[..k], i) <==> LineOk(items, i) {
      LineOkPrefix(items[..k], items[k..], i);
    }
  }

  /** Looking up an option gives `v` if and only if the last line for it in its section gives `v`. */
  lemma LookupMeaning(t: Sections, items: seq<Line>, s: string, o: string, v: string)
    requires Represents(t, items)
    ensures (s in t && o in t[s] && t[s][o] == v) <==> HasValue(items, s, o, v)
  {
    if HasValue(items, s, o, v) {
      var i: nat :| LastDefines(items, s, o, i) && items[i].value == v;
      assert Defines(items, s, o, i);
      assert HasValue(items, s, o, t[s][o]);
      var j: nat :| LastDefines(items, s, o, j) && items[j].value == t[s][o];
      assert i == j;
    }
  }

  /** A file means one table only. */
  lemma RepresentsUnique(t: Sections, u: Sections, items: seq<Line>)
    requires Represents(t, items) && Represents(u, items)
    ensures t == u
  {
    assert forall s :: s in t <==> s in u;
    forall s <- t ensures t[s] == u[s] {
      forall o <- t[s] ensures o in u[s] && u[s][o] == t[s][o] {
        LookupMeaning(t, items, s, o, t[s][o]);
        LookupMeaning(u, items, s, o, t[s][o]);
      }
      forall o <- u[s] ensures o in t[s] {
        LookupMeaning(t, items, s, o, u[s][o]);
        LookupMeaning(u, items, s, o, u[s][o]);
      }
    }
  }
}
