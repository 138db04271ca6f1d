/** Resource lines as the documentation writes them, and reading them. */
module ResourceLines {
  import opened Wire
  import opened Text
  import opened Conf
  import opened Strings
  import opened Tables
  import opened KeyLines

  // ---------- Writing ----------

  /** The words for the protocols. */
  function Words(r: Resource): seq<string> {
    if r.tcp && r.udp then ["tcp", "udp"] else if r.udp then ["udp"] else ["tcp"]
  }

  function HexIds(users: seq<UserId>): (t: seq<string>)
    ensures |t| == |users| && forall i :: 0 <= i < |users| ==> t[i] == Hex(users[i], 8)
  {
    seq(|users|, i requires 0 <= i < |users| => Hex(users[i], 8))
  }

  /** A key after one space, and what follows the colon. */
  function KeyText(key: string, value: string): string {
    (" " + key) + [':'] + value
  }

  function PortPart(r: Resource): string {
    KeyText("port", " " + Print(r.port, 10) + " ")
  }

  function WordsPart(r: Resource, tail: string): string {
    " " + Join(Words(r), ',') + tail
  }

  function UsersPart(r: Resource): string
    requires r.users != []
  {
    KeyText("users", " " + Join(HexIds(r.users), ','))
  }

  /** The value of a resource line: " port: 1234 / tcp,udp / users: 00000005,00000006"; the users may be missing. */
  function ResourceText(r: Resource): string {
    if r.users == [] then PortPart(r) + ['/'] + WordsPart(r, "")
    else PortPart(r) + ['/'] + (WordsPart(r, " ") + ['/'] + UsersPart(r))
  }

  // ---------- The parts ----------

  lemma DigitsFree(s: string, c: char)
    requires AllDigits(s, 16) && CharDigit(c).None?
    ensures c !in s
  {
  }

  lemma TrimKey(key: string)
    requires Tight(key)
    ensures Trim(" " + key) == key
  {
    TrimOf(" ", key, "");
    assert " " + key + "" == " " + key;
  }

  /** The port part reads as the port item. */
  lemma PortItem(r: Resource)
    ensures ItemOf(PortPart(r)) == Some(KeyValue("port", Print(r.port, 10)))
  {
    var n := Print(r.port, 10);
    var v := " " + n + " ";
    PortPlain(r.port);
    TrimKey("port");
    TrimOf(" ", n, " ");
    assert Join([v], ',') == v && ':' !in " port";
    PairItem(" " + "port", [v]);
  }

  lemma PortPlain(port: u16)
    ensures var n := Print(port, 10); Tight(n) && ',' !in n && '/' !in n
  {
    DigitsFree(Print(port, 10), ',');
    DigitsFree(Print(port, 10), '/');
    PrintTight(port, 10);
  }

  /** Words with a space in front and spaces behind, as they are joined. */
  lemma OneWord(w: string, tail: string)
    requires Tight(w) && ',' !in w && Spaces(tail) && ',' !in tail
    ensures var words := [" " + w + tail];
            Join(words, ',') == " " + w + tail && TrimAll(words) == [w] && FreeOf(words, ',')
  {
    TrimOf(" ", w, tail);
  }

  lemma TwoWords(v: string, w: string, tail: string)
    requires Tight(v) && ',' !in v && Tight(w) && ',' !in w && Spaces(tail) && ',' !in tail
    ensures var words := [" " + v, w + tail];
            Join(words, ',') == " " + Join([v, w], ',') + tail && TrimAll(words) == [v, w] && FreeOf(words, ',')
  {
    TrimKey(v);
    TrimOf("", w, tail);
    assert "" + w + tail == w + tail;
    TwoJoined(" ", v, w, tail);
  }

  lemma TwoJoined(a: string, v: string, w: string, b: string)
    ensures Join([a + v, w + b], ',') == a + Join([v, w], ',') + b
  {
    assert [a + v, w + b][1..] == [w + b] && [v, w][1..] == [w];
    assert (a + v) + [','] + (w + b) == a + (v + [','] + w) + b;
  }

  /** The words part reads as the list of words. */
  lemma WordsRead(r: Resource, tail: string)
    requires tail == "" || tail == " "
    ensures ItemOf(WordsPart(r, tail)) == Some(Values(Words(r)))
  {
    if r.tcp && r.udp {
      TwoWords("tcp", "udp", tail);
      NoColon(["tcp", "udp"], tail);
      WordsItem([" " + "tcp", "udp" + tail]);
    } else {
      var w := if r.udp then "udp" else "tcp";
      OneWord(w, tail);
      NoColon([w], tail);
      WordsItem([" " + w + tail]);
    }
  }

  lemma NoColon(words: seq<string>, tail: string)
    requires words != [] && FreeOf(words, ':') && ':' !in tail
    ensures ':' !in " " + Join(words, ',') + tail
  {
    if ':' in Join(words, ',') {
      JoinChars(words, ',', ':');
    }
  }

  lemma {:induction false} JoinPrefix(a: string, ws: seq<string>, sep: char)
    requires ws != []
    ensures Join([a + ws[0]] + ws[1..], sep) == a + Join(ws, sep)
  {
    var us := [a + ws[0]] + ws[1..];
    assert us[1..] == ws[1..];
    if |ws| > 1 {
      assert (a + ws[0]) + [sep] + Join(ws[1..], sep) == a + (ws[0] + [sep] + Join(ws[1..], sep));
    }
  }

  function UsersItem(users: seq<UserId>): MapItem
    requires users != []
  {
    if |users| == 1 then KeyValue("users", Hex(users[0], 8)) else KeyValues("users", HexIds(users))
  }

  /** The values when the text in front of the first one counts to it. */
  function Spaced(ids: seq<string>): seq<string>
    requires ids != []
  {
    [" " + ids[0]] + ids[1..]
  }

  lemma SpacedTrim(ids: seq<string>)
    requires ids != [] && forall i :: 0 <= i < |ids| ==> Tight(ids[i])
    ensures TrimAll(Spaced(ids)) == ids
  {
    TrimKey(ids[0]);
    TrimsTo(Spaced(ids), ids);
  }

  lemma SpacedFree(ids: seq<string>)
    requires ids != [] && FreeOf(ids, ',')
    ensures FreeOf(Spaced(ids), ',')
  {
    assert ',' !in " " + ids[0];
    assert forall i :: 1 <= i < |ids| ==> Spaced(ids)[i] == ids[i];
  }

  lemma TrimsTo(values: seq<string>, ids: seq<string>)
    requires |values| == |ids| > 0 && Trim(values[0]) == ids[0]
    requires forall i :: 1 <= i < |ids| ==> values[i] == ids[i] && Tight(ids[i])
    ensures TrimAll(values) == ids
  {
    forall i | 0 <= i < |ids| ensures TrimAll(values)[i] == ids[i] {
      if i > 0 {
        TightTrim(ids[i]);
      }
    }
  }

  lemma TightTrim(s: string)
    requires Tight(s)
    ensures Trim(s) == s
  {
    TrimOf("", s, "");
    assert "" + s + "" == s;
  }

  lemma {:induction false} HexIdsPlain(users: seq<UserId>)
    requires users != []
    ensures forall i :: 0 <= i < |users| ==> Tight(HexIds(users)[i]) && ',' !in HexIds(users)[i]
    ensures '/' !in Join(HexIds(users), ',')
  {
    var ids := HexIds(users);
    forall i, c | 0 <= i < |ids| && c in ids[i] ensures CharDigit(c).Some? && !IsSpace(c) {
      var k :| 0 <= k < |ids[i]| && ids[i][k] == c;
    }
    if '/' in Join(ids, ',') {
      JoinChars(ids, ',', '/');
    }
  }

  /** The users part reads as the users item. */
  lemma UsersRead(r: Resource)
    requires r.users != []
    ensures ItemOf(UsersPart(r)) == Some(UsersItem(r.users))
  {
    var ids := HexIds(r.users);
    HexIdsPlain(r.users);
    SpacedTrim(ids);
    SpacedFree(ids);
    JoinPrefix(" ", ids, ',');
    TrimKey("users");
    TrimKey(ids[0]);
    PairItem(" " + "users", Spaced(ids));
  }

  // ---------- The line ----------

  function ItemsFor(r: Resource): seq<MapItem> {
    if r.users == [] then [KeyValue("port", Print(r.port, 10)), Values(Words(r))]
    else [KeyValue("port", Print(r.port, 10)), Values(Words(r)), UsersItem(r.users)]
  }

  /** Slashes are only between the parts. */
  lemma PartsPlain(r: Resource)
    ensures '/' !in PortPart(r) && '/' !in WordsPart(r, "") && '/' !in WordsPart(r, " ")
    ensures r.users != [] ==> '/' !in UsersPart(r)
  {
    PortPlain(r.port);
    if '/' in Join(Words(r), ',') {
      JoinChars(Words(r), ',', '/');
    }
    if r.users != [] {
      HexIdsPlain(r.users);
    }
  }

  function PartsOf(r: Resource): seq<string> {
    if r.users == [] then [PortPart(r), WordsPart(r, "")] else [PortPart(r), WordsPart(r, " "), UsersPart(r)]
  }

  lemma LineParts(r: Resource)
    ensures Split(ResourceText(r), '/') == PartsOf(r)
  {
    PartsPlain(r);
    if r.users == [] {
      SplitTwo(PortPart(r), WordsPart(r, ""));
    } else {
      SplitThree(PortPart(r), WordsPart(r, " "), UsersPart(r));
    }
  }

  lemma SplitTwo(a: string, b: string)
    requires '/' !in a && '/' !in b
    ensures Split(a + ['/'] + b, '/') == [a, b]
  {
    assert [a, b][1..] == [b] && Join([b], '/') == b && Join([a, b], '/') == a + ['/'] + b;
    SplitOfJoin([a, b], '/');
  }

  lemma SplitThree(a: string, b: string, c: string)
    requires '/' !in a && '/' !in b && '/' !in c
    ensures Split(a + ['/'] + (b + ['/'] + c), '/') == [a, b, c]
  {
    assert [b, c][1..] == [c] && Join([c], '/') == c && Join([b, c], '/') == b + ['/'] + c;
    assert [a, b, c][1..] == [b, c] && Join([a, b, c], '/') == a + ['/'] + (b + ['/'] + c);
    SplitOfJoin([a, b, c], '/');
  }

  /** Reading part by part, whatever reads the parts. */
  lemma EachTwo(f: string -> Option<MapItem>, a: string, b: string, x: MapItem, y: MapItem)
    requires f(a) == Some(x) && f(b) == Some(y)
    ensures Each([a, b], f) == Some([x, y])
  {
    assert Each([a, b], f).value == [x, y];
  }

  lemma EachThree(f: string -> Option<MapItem>, a: string, b: string, c: string, x: MapItem, y: MapItem, z: MapItem)
    requires f(a) == Some(x) && f(b) == Some(y) && f(c) == Some(z)
    ensures Each([a, b, c], f) == Some([x, y, z])
  {
    assert Each([a, b, c], f).value == [x, y, z];
  }

  lemma LineEach(r: Resource, f: string -> Option<MapItem>)
    requires f(PortPart(r)) == Some(KeyValue("port", Print(r.port, 10)))
    requires f(WordsPart(r, if r.users == [] then "" else " ")) == Some(Values(Words(r)))
    requires r.users != [] ==> f(UsersPart(r)) == Some(UsersItem(r.users))
    ensures Each(PartsOf(r), f) == Some(ItemsFor(r))
  {
    var port, words := KeyValue("port", Print(r.port, 10)), Values(Words(r));
    if r.users == [] {
      EachTwo(f, PortPart(r), WordsPart(r, ""), port, words);
    } else {
      EachThree(f, PortPart(r), WordsPart(r, " "), UsersPart(r), port, words, UsersItem(r.users));
    }
  }

  lemma LineItems(r: Resource)
    ensures ItemsOf(ResourceText(r)) == Some(ItemsFor(r))
  {
    PortItem(r);
    WordsRead(r, if r.users == [] then "" else " ");
    if r.users != [] {
      UsersRead(r);
    }
    LineEach(r, ItemOf);
    LineParts(r);
  }

  lemma Collects(items: seq<MapItem>, x: MapItem)
    ensures Ports(items + [x]) == Ports(items) + if IsPort(x) then [x.value] else []
    ensures UserLists(items + [x]) == UserLists(items) + if IsUsers(x) then [UserTexts(x)] else []
    ensures Flags(items + [x]) == Flags(items) + if x.Values? then LowerAll(x.values) else []
  {
    assert (items + [x])[..|items|] == items;
  }

  lemma WordsLower(r: Resource)
    requires r.tcp || r.udp
    ensures LowerAll(Words(r)) == Words(r) && Legal(Values(Words(r)))
    ensures ("tcp" in Words(r) <==> r.tcp) && ("udp" in Words(r) <==> r.udp)
  {
    assert Lower("tcp") == "tcp" && Lower("udp") == "udp";
  }

  lemma TwoItems(n: string, words: seq<string>)
    ensures var items := [KeyValue("port", n), Values(words)];
            Ports(items) == [n] && UserLists(items) == [] && Flags(items) == LowerAll(words)
  {
    var a, b := KeyValue("port", n), Values(words);
    Collects([], a);
    Collects([a], b);
    assert [] + [a] == [a] && [a] + [b] == [a, b];
    assert IsPort(a) && !IsUsers(a) && !IsPort(b) && !IsUsers(b);
  }

  lemma ThreeItems(n: string, words: seq<string>, users: MapItem)
    requires IsUsers(users)
    ensures var items := [KeyValue("port", n), Values(words), users];
            Ports(items) == [n] && UserLists(items) == [UserTexts(users)] && Flags(items) == LowerAll(words)
  {
    var two := [KeyValue("port", n), Values(words)];
    TwoItems(n, words);
    Collects(two, users);
    assert two + [users] == [KeyValue("port", n), Values(words), users];
    assert !IsPort(users);
  }

  /** Items with these texts describe the resource. */
  lemma ItemsDescribe(n: string, words: seq<string>, ids: seq<string>, items: seq<MapItem>, r: Resource)
    requires forall i :: 0 <= i < |items| ==> Legal(items[i])
    requires Ports(items) == [n] && ParseU16(n) == Some(r.port) && Flags(items) == words
    requires if r.users == [] then UserLists(items) == [] else UserLists(items) == [ids] && AllIds(ids, r.users)
    requires ("tcp" in words <==> r.tcp) && ("udp" in words <==> r.udp) && (r.tcp || r.udp)
    ensures Describes(items, r)
  {
  }

  lemma IdsRead(users: seq<UserId>)
    ensures AllIds(HexIds(users), users)
  {
    forall i | 0 <= i < |users| ensures ParseId(HexIds(users)[i]) == Some(users[i]) {
      UserReads(users[i]);
    }
  }

  lemma PortText(port: u16)
    ensures ParseU16(Print(port, 10)) == Some(port)
  {
    PortReads(port, "", "");
    assert "" + Print(port, 10) + "" == Print(port, 10);
  }

  lemma LineDescribes(r: Resource)
    requires r.tcp || r.udp
    ensures Describes(ItemsFor(r), r)
  {
    PortText(r.port);
    if r.users == [] {
      OpenDescribes(r, Print(r.port, 10));
    } else {
      IdsRead(r.users);
      ListDescribes(r, Print(r.port, 10), HexIds(r.users), UsersItem(r.users));
    }
  }

  lemma OpenDescribes(r: Resource, n: string)
    requires (r.tcp || r.udp) && r.users == [] && ParseU16(n) == Some(r.port)
    ensures Describes([KeyValue("port", n), Values(Words(r))], r)
  {
    WordsLower(r);
    TwoItems(n, Words(r));
    ItemsDescribe(n, Words(r), [], [KeyValue("port", n), Values(Words(r))], r);
  }

  lemma ListDescribes(r: Resource, n: string, ids: seq<string>, users: MapItem)
    requires (r.tcp || r.udp) && r.users != [] && ParseU16(n) == Some(r.port)
    requires IsUsers(users) && UserTexts(users) == ids && AllIds(ids, r.users)
    ensures Describes([KeyValue("port", n), Values(Words(r)), users], r)
  {
    var words := Words(r);
    WordsLower(r);
    ThreeItems(n, words, users);
    LegalThree(n, words, users);
    ItemsDescribe(n, words, ids, [KeyValue("port", n), Values(words), users], r);
  }

  lemma LegalThree(n: string, words: seq<string>, users: MapItem)
    requires ParseU16(n).Some? && Legal(Values(words)) && IsUsers(users)
    ensures var items := [KeyValue("port", n), Values(words), users];
            forall i :: 0 <= i < |items| ==> Legal(items[i])
  {
  }

  /**
   * Round trip: the documented form of a resource line, for every identifier, port, choice of protocols
   * and list of users, reads as exactly that identifier and that resource.
   */
  lemma ResourceLineReads(id: ResourceId, r: Resource, i: ResourceId, s: Resource)
    requires r.tcp || r.udp
    ensures ResourceLine(Hex(id, 8), ResourceText(r), i, s) <==> i == id && s == r
  {
    UserReads(id);
    LineItems(r);
    LineDescribes(r);
    if Describes(ItemsFor(r), s) {
      DescribesUnique(ItemsFor(r), r, s);
    }
  }
}
