/** The line that `gen-key` prints, and reading it back from a configuration file. */
module KeyLines {
  import opened Wire
  import opened Text
  import opened Conf
  import opened Strings
  import opened Inis
  import opened Tables

  // ---------- Printing ----------

  /** The lowest `width` hexadecimal digits of `n`. */
  function FixedDigits(n: nat, width: nat): (ds: seq<Digit>)
    ensures |ds| == width
  {
    if width == 0 then [] else FixedDigits(n / 16, width - 1) + [n % 16]
  }

  function Pow16(k: nat): nat {
    if k == 0 then 1 else 16 * Pow16(k - 1)
  }

  lemma {:induction false} FixedDigitsValue(n: nat, width: nat)
    requires n < Pow16(width)
    ensures Value(FixedDigits(n, width), 16) == n
  {
    if width > 0 {
      FixedDigitsValue(n / 16, width - 1);
      ValueSnoc(FixedDigits(n / 16, width - 1), n % 16, 16);
    }
  }

  /** Upper-case hexadecimal with leading zeros, as `{:08X}` and `{:02X}` print it. */
  function Hex(n: nat, width: nat): (s: string)
    ensures |s| == width && AllDigits(s, 16)
    ensures DigitsOf(s) == FixedDigits(n, width)
  {
    var s := Chars(FixedDigits(n, width), true);
    assert DigitsOf(s) == FixedDigits(n, width);
    s
  }

  /** Two digits for a byte. */
  lemma ByteHex(b: byte)
    ensures HexOf(Hex(b, 2), [b])
  {
    var s := Hex(b, 2);
    assert FixedDigits(b / 16, 1) == FixedDigits(0, 0) + [b / 16];
    assert DigitsOf(s) == [b / 16, b % 16];
    assert CharDigit(s[0]).value == DigitsOf(s)[0] && CharDigit(s[1]).value == DigitsOf(s)[1];
  }

  lemma HexOfSnoc(s: string, bytes: seq<byte>, l: string, b: byte)
    requires HexOf(s, bytes) && HexOf(l, [b])
    ensures HexOf(s + l, bytes + [b])
  {
    var t, all := s + l, bytes + [b];
    forall i | 0 <= i < |all| ensures all[i] == CharDigit(t[2 * i]).value * 16 + CharDigit(t[2 * i + 1]).value {
      if i < |bytes| {
        assert t[2 * i] == s[2 * i] && t[2 * i + 1] == s[2 * i + 1];
      } else {
        assert t[2 * i] == l[0] && t[2 * i + 1] == l[1];
        assert [b][0] == CharDigit(l[2 * 0]).value * 16 + CharDigit(l[2 * 0 + 1]).value;
      }
    }
  }

  /** The bytes of a key, two digits each. */
  function HexKey(key: seq<byte>): string {
    if key == [] then "" else HexKey(key[..|key| - 1]) + Hex(key[|key| - 1], 2)
  }

  lemma {:induction false} HexKeyOf(key: seq<byte>)
    ensures HexOf(HexKey(key), key)
  {
    if key != [] {
      var init, b := key[..|key| - 1], key[|key| - 1];
      HexKeyOf(init);
      ByteHex(b);
      assert init + [b] == key && HexKey(key) == HexKey(init) + Hex(b, 2);
      HexOfSnoc(HexKey(init), init, Hex(b, 2), b);
    }
  }

  /** The printed line: user, equal sign, key. */
  function KeyLineText(user: UserId, key: Key): string {
    Hex(user, 8) + " = " + HexKey(key)
  }

  /** Eight digits, " = ", and 64 digits, all of them upper case. */
  lemma LineShape(user: UserId, key: Key)
    ensures var line := KeyLineText(user, key);
            && |line| == 75 && line[8..11] == " = "
            && forall i :: (0 <= i < 8 || 11 <= i < 75) ==> line[i] in "0123456789ABCDEF"
  {
    var line := KeyLineText(user, key);
    HexKeyOf(key);
    HexUpper(user, 8);
    HexKeyUpper(key);
    assert forall i :: 0 <= i < 8 ==> line[i] == Hex(user, 8)[i];
    assert forall i :: 11 <= i < 75 ==> line[i] == HexKey(key)[i - 11];
  }

  lemma HexUpper(n: nat, width: nat)
    ensures forall i :: 0 <= i < width ==> Hex(n, width)[i] in UPPER
  {
    assert forall i :: 0 <= i < width ==> Hex(n, width)[i] == DigitChar(FixedDigits(n, width)[i], true);
  }

  lemma {:induction false} HexKeyUpper(key: seq<byte>)
    ensures forall i :: 0 <= i < |HexKey(key)| ==> HexKey(key)[i] in UPPER
  {
    if key != [] {
      HexKeyUpper(key[..|key| - 1]);
      HexUpper(key[|key| - 1], 2);
    }
  }

  // ---------- Reading back ----------

  lemma DigitsAreNoSpace(s: string)
    requires AllDigits(s, 16)
    ensures forall i :: 0 <= i < |s| ==> !IsSpace(s[i]) && s[i] !in "=\n\r#["
  {
  }

  lemma TrimDigits(s: string)
    requires AllDigits(s, 16) && s != ""
    ensures Trim(s) == s && Trim(" " + s) == s
  {
    DigitsAreNoSpace(s);
    assert TrimStart(" " + s) == TrimStart((" " + s)[1..]) && (" " + s)[1..] == s;
  }

  /** A printed user identifier reads as that identifier. */
  lemma UserReads(user: UserId)
    ensures ParseId(Hex(user, 8)) == Some(user)
  {
    var s := Hex(user, 8);
    TrimDigits(s);
    assert CharDigit(s[0]).Some?;
    assert Pow16(8) == 0x1_0000_0000 by {
      assert Pow16(2) == 256 && Pow16(4) == 65536 && Pow16(6) == 16777216;
    }
    FixedDigitsValue(user, 8);
  }

  /** The printed line is an option line with the user as its name. */
  lemma LineClassified(user: UserId, key: Key)
    ensures Classify(KeyLineText(user, key)) == Entry(Hex(user, 8), " " + HexKey(key))
  {
    var u, k := Hex(user, 8), HexKey(key);
    var line := KeyLineText(user, key);
    DigitsAreNoSpace(u);
    assert line[0] == u[0];
    assert line == (u + " ") + ['='] + (" " + k);
    IndexOfConcat(u + " ", '=', " " + k);
    assert line[..9] == u + " " && line[10..] == " " + k;
    assert TrimEnd(u + " ") == TrimEnd((u + " ")[..8]) && (u + " ")[..8] == u;
  }

  /** The configuration file with a single line under [KEYS]. */
  function KeyFile(line: string): string {
    "[KEYS]" + ['\n'] + (line + ['\n'] + "")
  }

  /** The file has exactly these two lines. */
  lemma FileLines(line: string)
    requires '\n' !in line && line != "" && line[|line| - 1] != '\r'
    ensures Lines(KeyFile(line)) == ["[KEYS]", line]
  {
    LinesCons("[KEYS]", line + ['\n'] + "");
    LinesCons(line, "");
    assert Lines("") == [];
    assert StripCr("[KEYS]") == "[KEYS]" && StripCr(line) == line;
  }

  lemma LineHasNoBreak(user: UserId, key: Key)
    ensures var line := KeyLineText(user, key); '\n' !in line && line != "" && line[|line| - 1] != '\r'
  {
    HexKeyOf(key);
    DigitsAreNoSpace(Hex(user, 8));
    DigitsAreNoSpace(HexKey(key));
    assert KeyLineText(user, key)[|KeyLineText(user, key)| - 1] == HexKey(key)[|HexKey(key)| - 1];
  }

  lemma HeaderClassified()
    ensures Classify("[KEYS]") == Section("KEYS")
  {
    assert TrimStart("[KEYS]") == "[KEYS]" && TrimEnd("[KEYS]") == "[KEYS]";
  }

  // ---------- The keys of a configuration file ----------

  function OptionsIn(t: Sections, section: string): Options {
    if section in t then t[section] else map[]
  }

  /** The text is a well-formed configuration whose section KEYS, if there is one, gives these keys. */
  ghost predicate Loads(text: string, keys: map<UserId, Key>) {
    WellFormed(ClassifyAll(Lines(text))) && GivesKeys(ClassifyAll(Lines(text)), keys)
  }

  ghost predicate GivesKeys(items: seq<Line>, keys: map<UserId, Key>) {
    exists t: Sections :: Represents(t, items) && HasKeyTable(OptionsIn(t, "KEYS"), keys)
  }

  ghost predicate HasKeyTable(options: Options, keys: map<UserId, Key>) {
    exists e: Readings<Key> :: KeyTable(options, e, keys)
  }

  lemma OneKeyTableOnly(options: Options, a: map<UserId, Key>, b: map<UserId, Key>)
    requires HasKeyTable(options, a) && HasKeyTable(options, b)
    ensures a == b
  {
    var e: Readings<Key> :| KeyTable(options, e, a);
    var f: Readings<Key> :| KeyTable(options, f, b);
    KeyTableUnique(options, e, a, f, b);
  }

  /** With the table of a file at hand, the keys it gives are those of this table. */
  lemma GivesIff(items: seq<Line>, t: Sections, keys: map<UserId, Key>)
    requires Represents(t, items)
    ensures GivesKeys(items, keys) <==> HasKeyTable(OptionsIn(t, "KEYS"), keys)
  {
    if GivesKeys(items, keys) {
      var u: Sections :| Represents(u, items) && HasKeyTable(OptionsIn(u, "KEYS"), keys);
      RepresentsUnique(t, u, items);
    }
  }

  /** Read the keys of a configuration: succeeds iff the text gives keys, and these are the only ones it gives. */
  method LoadKeys(text: string) returns (r: Option<map<UserId, Key>>)
    ensures r.Some? ==> forall keys :: Loads(text, keys) <==> keys == r.value
    ensures r.None? ==> forall keys :: !Loads(text, keys)
  {
    var ini := new Ini();
    var good := ini.ParseStr(text);
    if !good {
      return None;
    }
    var options := OptionsIn(ini.sections, "KEYS");
    ghost var e;
    r, e := GetKeys(options);
    forall keys ensures Loads(text, keys) <==> HasKeyTable(options, keys) {
      GivesIff(ClassifyAll(Lines(text)), ini.sections, keys);
    }
    forall keys | r.Some? && HasKeyTable(options, keys) ensures keys == r.value {
      OneKeyTableOnly(options, keys, r.value);
    }
  }

  // ---------- The round trip ----------

  /** With these two lines the section KEYS has just the one option. */
  lemma OneOption(t: Sections, name: string, value: string)
    ensures Represents(t, [Section("KEYS"), Entry(name, value)]) <==> t == map["KEYS" := map[name := value]]
  {
    var items := [Section("KEYS"), Entry(name, value)];
    var u: Sections := map["KEYS" := map[name := value]];
    assert items[0] == Section("KEYS");
    assert SectionAt(items, 1) == Some("KEYS");
    assert LastDefines(items, "KEYS", name, 1) && HasValue(items, "KEYS", name, value);
    assert Represents(u, items);
    if Represents(t, items) {
      RepresentsUnique(t, u, items);
    }
  }

  lemma TwoLinesWellFormed(name: string, value: string)
    ensures WellFormed([Section("KEYS"), Entry(name, value)])
  {
    var items := [Section("KEYS"), Entry(name, value)];
    assert SectionAt(items, 1) == Some("KEYS");
    assert LineOk(items, 0) && LineOk(items, 1);
  }

  /** The file consists of the section line and the option line. */
  lemma FileItems(user: UserId, key: Key)
    ensures ClassifyAll(Lines(KeyFile(KeyLineText(user, key))))
         == [Section("KEYS"), Entry(Hex(user, 8), " " + HexKey(key))]
  {
    LineHasNoBreak(user, key);
    FileLines(KeyLineText(user, key));
    HeaderClassified();
    LineClassified(user, key);
  }

  /** The printed line reads as exactly this user and key, unless the key is all 00 or all FF. */
  lemma GeneratedReading(user: UserId, key: Key, id: UserId, k: Key)
    ensures KeyLine(Hex(user, 8), " " + HexKey(key), id, k) <==>
              && id == user && k == key
              && (exists i :: 0 <= i < 32 && key[i] != 0) && (exists i :: 0 <= i < 32 && key[i] != 0xFF)
  {
    UserReads(user);
    HexKeyOf(key);
    TrimDigits(HexKey(key));
    if HexOf(HexKey(key), k) {
      HexOfUnique(HexKey(key), k, key);
    }
  }

  /** The table of a section with one option has the one entry that its line reads as. */
  lemma OneKey(name: string, value: string, keys: map<UserId, Key>) returns (id: UserId, k: Key)
    requires HasKeyTable(map[name := value], keys)
    ensures KeyLine(name, value, id, k) && keys == map[id := k]
  {
    var e: Readings<Key> :| KeyTable(map[name := value], e, keys);
    OneReading(name, value, e, keys);
    id, k := e[name].0, e[name].1;
  }

  lemma OneReading(name: string, value: string, e: Readings<Key>, keys: map<UserId, Key>)
    requires KeyTable(map[name := value], e, keys)
    ensures e.Keys == {name} && KeyLine(name, value, e[name].0, e[name].1) && keys == map[e[name].0 := e[name].1]
  {
    ReadAt(Keys(), map[name := value], {name}, e, name);
    assert keys.Keys == {e[name].0};
  }

  lemma OneKeyTable(name: string, value: string, id: UserId, k: Key)
    requires KeyLine(name, value, id, k)
    ensures HasKeyTable(map[name := value], map[id := k])
  {
    var e: Readings<Key> := map[name := (id, k)];
    assert e[name].0 == id;
    assert Reads(Keys(), map[name := value], {name}, e);
    assert KeyTable(map[name := value], e, map[id := k]);
  }

  /**
   * Round trip: a configuration file that holds the line printed for a user and a key under [KEYS]
   * loads as exactly that user and that key; it loads if and only if the key is not all 00 or all FF.
   */
  lemma GeneratedKeyLoads(user: UserId, key: Key, keys: map<UserId, Key>)
    ensures Loads(KeyFile(KeyLineText(user, key)), keys) <==>
              && (exists i :: 0 <= i < 32 && key[i] != 0) && (exists i :: 0 <= i < 32 && key[i] != 0xFF)
              && keys == map[user := key]
  {
    var name, value := Hex(user, 8), " " + HexKey(key);
    var t: Sections := map["KEYS" := map[name := value]];
    FileItems(user, key);
    TwoLinesWellFormed(name, value);
    OneOption(t, name, value);
    GivesIff([Section("KEYS"), Entry(name, value)], t, keys);
    if HasKeyTable(t["KEYS"], keys) {
      var id, k := OneKey(name, value, keys);
      GeneratedReading(user, key, id, k);
    }
    if (exists i :: 0 <= i < 32 && key[i] != 0) && (exists i :: 0 <= i < 32 && key[i] != 0xFF) {
      GeneratedReading(user, key, user, key);
      OneKeyTable(name, value, user, key);
    }
  }
}
