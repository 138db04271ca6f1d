/** Building the key and resource tables from configuration text. */
module Tables {
  import opened Wire
  import opened Text
  import opened Conf
  import opened Strings
  import opened Inis

  // ---------- Items of an option value ----------

  datatype MapItem =
    | KeyValue(key: string, value: string)
    | KeyValues(key: string, values: seq<string>)
    | Values(values: seq<string>)

  function TrimAll(parts: seq<string>): seq<string> {
    seq(|parts|, i requires 0 <= i < |parts| => Trim(parts[i]))
  }

  /** One part between slashes: "key: value", "key: v, w" or "v, w". An empty key is an error. */
  function ItemOf(part: string): Option<MapItem> {
    if ':' !in part then Some(Values(TrimAll(Split(part, ','))))
    else
      var i := IndexOf(part, ':');
      var key, value := Trim(part[..i]), part[i + 1..];
      if i == 0 || key == "" then None
      else if ',' in value then Some(KeyValues(key, TrimAll(Split(value, ','))))
      else Some(KeyValue(key, Trim(value)))
  }

  /** `r` lists the items of these parts in order; there is none iff some part is no item. */
  ghost predicate ItemsAre(parts: seq<string>, r: Option<seq<MapItem>>) {
    && (r.Some? <==> forall i :: 0 <= i < |parts| ==> ItemOf(parts[i]).Some?)
    && (r.Some? ==> |r.value| == |parts| && forall i :: 0 <= i < |parts| ==> ItemOf(parts[i]) == Some(r.value[i]))
  }

  /** The parts between slashes are items, in order: whatever slash-free parts the text is joined from. */
  method ParseItems(s: string) returns (r: Option<seq<MapItem>>)
    ensures r == ItemsOf(s)
    ensures forall parts :: parts != [] && FreeOf(parts, '/') && Join(parts, '/') == s ==> ItemsAre(parts, r)
  {
    forall parts | parts != [] && FreeOf(parts, '/') && Join(parts, '/') == s ensures ItemsAre(parts, ItemsOf(s)) {
      ItemsOfJoin(parts);
    }
    var parts, items := Split(s, '/'), [];
    for i := 0 to |parts|
      invariant ItemsFrom(parts[..i]) == Some(items)
    {
      assert parts[..i + 1][..i] == parts[..i];
      var item := ItemOf(parts[i]);
      if item.None? {
        return None;
      }
      items := items + [item.value];
    }
    assert parts[..|parts|] == parts;
    return Some(items);
  }

  function ItemsOf(s: string): Option<seq<MapItem>> {
    ItemsFrom(Split(s, '/'))
  }

  function ItemsFrom(parts: seq<string>): Option<seq<MapItem>> {
    Each(parts, ItemOf)
  }

  /** Read every part; None if one cannot be read. */
  function Each<T>(parts: seq<string>, f: string -> Option<T>): (r: Option<seq<T>>)
    ensures r.Some? <==> forall i :: 0 <= i < |parts| ==> f(parts[i]).Some?
    ensures r.Some? ==> |r.value| == |parts| && forall i :: 0 <= i < |parts| ==> f(parts[i]) == Some(r.value[i])
  {
    if parts == [] then Some([])
    else
      var init, last := Each(parts[..|parts| - 1], f), f(parts[|parts| - 1]);
      if init.None? || last.None? then None else Some(init.value + [last.value])
  }

  lemma ItemsOfJoin(parts: seq<string>)
    requires parts != [] && FreeOf(parts, '/')
    ensures ItemsAre(parts, ItemsOf(Join(parts, '/')))
  {
    SplitOfJoin(parts, '/');
  }

  /** A part without a colon lists its words, whatever comma-free words it is joined from. */
  lemma WordsItem(words: seq<string>)
    requires words != [] && FreeOf(words, ',') && ':' !in Join(words, ',')
    ensures ItemOf(Join(words, ',')) == Some(Values(TrimAll(words)))
  {
    SplitOfJoin(words, ',');
  }

  /** A part with a colon is a key and one value, or several if they are separated by commas. */
  lemma PairItem(key: string, values: seq<string>)
    requires ':' !in key && values != [] && FreeOf(values, ',')
    ensures var item := ItemOf(key + [':'] + Join(values, ','));
            if Trim(key) == "" then item.None?
            else if |values| == 1 then item == Some(KeyValue(Trim(key), Trim(values[0])))
            else item == Some(KeyValues(Trim(key), TrimAll(values)))
  {
    var v := Join(values, ',');
    var part := key + [':'] + v;
    IndexOfConcat(key, ':', v);
    assert part[..|key|] == key && part[|key| + 1..] == v;
    SplitOfJoin(values, ',');
    JoinSep(values, ',');
    assert |key| == 0 ==> Trim(key) == "";
  }

  // ---------- One resource ----------

  predicate IsPort(item: MapItem) { item.KeyValue? && item.key == "port" }

  predicate IsUsers(item: MapItem) { !item.Values? && item.key == "users" }

  /** An item that a resource may have at all. */
  predicate Legal(item: MapItem) {
    match item
    case KeyValue(k, v) => (k == "port" && ParseU16(v).Some?) || k == "users"
    case KeyValues(k, _) => k == "users"
    case Values(vs) => forall v <- vs :: Lower(v) == "tcp" || Lower(v) == "udp"
  }

  function UserTexts(item: MapItem): seq<string>
    requires IsUsers(item)
  {
    match item
    case KeyValue(_, v) => [v]
    case KeyValues(_, vs) => vs
  }

  function LowerAll(vs: seq<string>): (r: seq<string>)
    ensures |r| == |vs| && forall i :: 0 <= i < |vs| ==> r[i] == Lower(vs[i])
  {
    seq(|vs|, i requires 0 <= i < |vs| => Lower(vs[i]))
  }

  /** All port values of the list, in order. */
  function Ports(items: seq<MapItem>): seq<string> {
    if items == [] then []
    else Ports(items[..|items| - 1]) + if IsPort(items[|items| - 1]) then [items[|items| - 1].value] else []
  }

  /** All lists of users. */
  function UserLists(items: seq<MapItem>): seq<seq<string>> {
    if items == [] then []
    else UserLists(items[..|items| - 1]) + if IsUsers(items[|items| - 1]) then [UserTexts(items[|items| - 1])] else []
  }

  /** All protocol words, in lower case. */
  function Flags(items: seq<MapItem>): seq<string> {
    if items == [] then []
    else Flags(items[..|items| - 1]) + if items[|items| - 1].Values? then LowerAll(items[|items| - 1].values) else []
  }

  lemma {:induction false} CountsGrow(items: seq<MapItem>, k: nat)
    requires k <= |items|
    ensures |Ports(items[..k])| <= |Ports(items)| && |UserLists(items[..k])| <= |UserLists(items)|
    decreases |items|
  {
    if k < |items| {
      var init := items[..|items| - 1];
      CountsGrow(init, k);
      assert init[..k] == items[..k];
    } else {
      assert items[..k] == items;
    }
  }

  ghost predicate AllIds(texts: seq<string>, ids: seq<u32>) {
    |texts| == |ids| && forall i :: 0 <= i < |ids| ==> ParseId(texts[i]) == Some(ids[i])
  }

  /** The items describe this resource: one port, at most one list of users, and TCP unless only UDP is named. */
  ghost predicate Describes(items: seq<MapItem>, r: Resource) {
    && (forall i :: 0 <= i < |items| ==> Legal(items[i]))
    && |Ports(items)| == 1 && ParseU16(Ports(items)[0]) == Some(r.port)
    && |UserLists(items)| <= 1 && AllIds(if UserLists(items) == [] then [] else UserLists(items)[0], r.users)
    && r.udp == ("udp" in Flags(items)) && r.tcp == ("tcp" in Flags(items) || "udp" !in Flags(items))
  }

  lemma DescribesUnique(items: seq<MapItem>, a: Resource, b: Resource)
    requires Describes(items, a) && Describes(items, b)
    ensures a == b
  {
    assert a.users == b.users;
  }

  /** Lists of users made by the item parser are never empty. */
  ghost predicate ListsFilled(items: seq<MapItem>) {
    forall i :: 0 <= i < |items| && items[i].KeyValues? ==> items[i].values != []
  }

  lemma ItemsFilled(s: string)
    ensures ItemsOf(s).Some? ==> ListsFilled(ItemsOf(s).value)
  {
    if ItemsOf(s).Some? {
      var parts, items := Split(s, '/'), ItemsOf(s).value;
      forall i | 0 <= i < |items| && items[i].KeyValues? ensures items[i].values != [] {
        assert ItemOf(parts[i]) == Some(items[i]);
      }
    }
  }

  /** What the loop over the items knows after some of them. */
  ghost predicate Collected(items: seq<MapItem>, port: Option<u16>, users: seq<string>, tcp: bool, udp: bool) {
    && (forall i :: 0 <= i < |items| ==> Legal(items[i]))
    && (if port.None? then Ports(items) == [] else |Ports(items)| == 1 && ParseU16(Ports(items)[0]) == port)
    && (if users == [] then UserLists(items) == [] else UserLists(items) == [users])
    && tcp == ("tcp" in Flags(items)) && udp == ("udp" in Flags(items))
  }

  /** The words of one item. */
  method ReadFlags(vs: seq<string>) returns (ok: bool, tcp: bool, udp: bool)
    ensures ok <==> Legal(Values(vs))
    ensures ok ==> tcp == ("tcp" in LowerAll(vs)) && udp == ("udp" in LowerAll(vs))
  {
    tcp, udp := false, false;
    for i := 0 to |vs|
      invariant forall j :: 0 <= j < i ==> Lower(vs[j]) == "tcp" || Lower(vs[j]) == "udp"
      invariant tcp == exists j :: 0 <= j < i && Lower(vs[j]) == "tcp"
      invariant udp == exists j :: 0 <= j < i && Lower(vs[j]) == "udp"
    {
      var v := Lower(vs[i]);
      if v == "tcp" {
        tcp := true;
      } else if v == "udp" {
        udp := true;
      } else {
        assert vs[i] in vs;
        return false, tcp, udp;
      }
    }
    assert forall j :: 0 <= j < |vs| ==> LowerAll(vs)[j] == Lower(vs[j]);
    ok := true;
  }

  /** One turn of the loop over the items. */
  method AddItem(item: MapItem, port: Option<u16>, users: seq<string>, tcp: bool, udp: bool, ghost seen: seq<MapItem>)
    returns (ok: bool, port': Option<u16>, users': seq<string>, tcp': bool, udp': bool)
    requires Collected(seen, port, users, tcp, udp) && (item.KeyValues? ==> item.values != [])
    ensures ok ==> Collected(seen + [item], port', users', tcp', udp')
    ensures !ok ==> !Legal(item) || |Ports(seen + [item])| > 1 || |UserLists(seen + [item])| > 1
  {
    port', users', tcp', udp' := port, users, tcp, udp;
    assert (seen + [item])[..|seen|] == seen;
    match item {
      case KeyValue(k, v) =>
        if k == "port" {
          if port.Some? || ParseU16(v).None? {
            return false, port, users, tcp, udp;
          }
          port' := ParseU16(v);
        } else if k == "users" {
          if users != [] {
            return false, port, users, tcp, udp;
          }
          users' := [v];
        } else {
          return false, port, users, tcp, udp;
        }
      case KeyValues(k, vs) =>
        if k != "users" || users != [] {
          return false, port, users, tcp, udp;
        }
        users' := vs;
      case Values(vs) =>
        var t, u;
        ok, t, u := ReadFlags(vs);
        if !ok {
          return;
        }
        tcp', udp' := tcp || t, udp || u;
    }
    ok := true;
  }

  lemma NoId(texts: seq<string>, i: nat)
    requires i < |texts| && ParseId(texts[i]).None?
    ensures forall ids :: !AllIds(texts, ids)
  {
  }

  method ReadUsers(texts: seq<string>) returns (r: Option<seq<u32>>)
    ensures r.Some? ==> AllIds(texts, r.value)
    ensures r.None? ==> forall ids :: !AllIds(texts, ids)
  {
    var ids: seq<u32> := [];
    for i := 0 to |texts|
      invariant |ids| == i && forall j :: 0 <= j < i ==> ParseId(texts[j]) == Some(ids[j])
    {
      var id := ParseId(texts[i]);
      if id.None? {
        NoId(texts, i);
        return None;
      }
      ids := ids + [id.value];
    }
    return Some(ids);
  }

  /** With all items collected, only the user identifiers are left to read. */
  lemma CollectedUsers(items: seq<MapItem>, port: Option<u16>, users: seq<string>, tcp: bool, udp: bool)
    requires Collected(items, port, users, tcp, udp) && port.Some?
    ensures forall r :: Describes(items, r) <==>
              AllIds(users, r.users) && r.port == port.value && r.udp == udp && r.tcp == (tcp || !udp)
  {
  }

  /** Read one resource: succeeds iff the items describe one, and gives it. */
  method ReadResource(items: seq<MapItem>) returns (r: Option<Resource>)
    requires ListsFilled(items)
    ensures r.Some? ==> Describes(items, r.value)
    ensures r.None? ==> forall s :: !Describes(items, s)
  {
    var port: Option<u16>, users: seq<string>, tcp, udp := None, [], false, false;
    ghost var seen: seq<MapItem> := [];
    for i := 0 to |items|
      invariant Collected(seen, port, users, tcp, udp) && seen == items[..i]
    {
      var ok;
      assert items[..i + 1] == seen + [items[i]];
      ok, port, users, tcp, udp := AddItem(items[i], port, users, tcp, udp, seen);
      if !ok {
        CountsGrow(items, i + 1);
        return None;
      }
      seen := items[..i + 1];
    }
    assert seen == items;
    if port.None? {
      return None;
    }
    var ids := ReadUsers(users);
    CollectedUsers(items, port, users, tcp, udp);
    if ids.None? {
      return None;
    }
    return Some(Resource(port.value, tcp || !udp, udp, ids.value));
  }

  // ---------- Tables ----------

  /** The option lines, read: for each option name the identifier and what it stands for. */
  type Readings<V> = map<string, (u32, V)>

  ghost predicate DistinctIds<V>(e: Readings<V>) {
    forall m <- e, n <- e :: e[m].0 == e[n].0 ==> m == n
  }

  /** `t` holds exactly the readings `e`. */
  ghost predicate TableFor<V>(e: Readings<V>, t: map<u32, V>) {
    && (forall n <- e :: e[n].0 in t && t[e[n].0] == e[n].1)
    && (forall id <- t :: exists n <- e :: e[n].0 == id)
  }

  lemma TableForUnique<V>(e: Readings<V>, t: map<u32, V>, u: map<u32, V>)
    requires TableFor(e, t) && TableFor(e, u)
    ensures t == u
  {
    forall id <- t ensures id in u && u[id] == t[id] {
      var n :| n in e && e[n].0 == id;
    }
    forall id <- u ensures id in t && t[id] == u[id] {
      var n :| n in e && e[n].0 == id;
    }
  }

  lemma TableForAdd<V>(e: Readings<V>, t: map<u32, V>, n: string, id: u32, v: V)
    requires TableFor(e, t) && DistinctIds(e) && n !in e && id !in t
    ensures TableFor(e[n := (id, v)], t[id := v]) && DistinctIds(e[n := (id, v)])
  {
    var e', t' := e[n := (id, v)], t[id := v];
    forall i <- t' ensures exists m <- e' :: e'[m].0 == i {
      if i == id {
        assert e'[n].0 == id;
      } else {
        var m :| m in e && e[m].0 == i;
        assert m in e' && e'[m].0 == i;
      }
    }
  }

  /** What an option line `name = value` may mean: an identifier and what it stands for. */
  type Meaning<!V> = (string, string, u32, V) -> bool

  ghost predicate Functional<V(!new)>(line: Meaning<V>) {
    forall n, v, i, a, j, b :: line(n, v, i, a) && line(n, v, j, b) ==> i == j && a == b
  }

  /** `e` are the readings of the options `names`. */
  ghost predicate Reads<V>(line: Meaning<V>, options: Options, names: set<string>, e: Readings<V>) {
    && e.Keys == names <= options.Keys
    && forall n {:trigger line(n, options[n], e[n].0, e[n].1)} :: n in e ==> line(n, options[n], e[n].0, e[n].1)
  }

  lemma ReadAt<V>(line: Meaning<V>, options: Options, names: set<string>, e: Readings<V>, n: string)
    requires Reads(line, options, names, e) && n in names
    ensures line(n, options[n], e[n].0, e[n].1)
  {
    assert n in e;
    assert line(n, options[n], e[n].0, e[n].1);
  }

  lemma ReadsUnique<V(!new)>(line: Meaning<V>, options: Options, names: set<string>, e: Readings<V>, f: Readings<V>)
    requires Functional(line) && Reads(line, options, names, e) && Reads(line, options, names, f)
    ensures e == f
  {
    forall n <- e ensures e[n] == f[n] {
      assert line(n, options[n], e[n].0, e[n].1) && line(n, options[n], f[n].0, f[n].1);
    }
  }

  /** What the loop over the options knows: the table so far, and that no identifier came twice. */
  ghost predicate Building<V>(line: Meaning<V>, options: Options, names: set<string>, e: Readings<V>, t: map<u32, V>) {
    Reads(line, options, names, e) && DistinctIds(e) && TableFor(e, t)
  }

  lemma BuildOn<V>(line: Meaning<V>, options: Options, names: set<string>, e: Readings<V>, t: map<u32, V>,
      n: string, id: u32, v: V)
    requires Building(line, options, names, e, t)
    requires n in options && n !in names && id !in t && line(n, options[n], id, v)
    ensures Building(line, options, names + {n}, e[n := (id, v)], t[id := v])
  {
    TableForAdd(e, t, n, id, v);
  }

  /** Part of a complete reading: the readings so far are the same. */
  lemma PartAgrees<V(!new)>(line: Meaning<V>, options: Options, names: set<string>, e: Readings<V>,
      all: Readings<V>, n: string)
    requires Functional(line) && Reads(line, options, names, e) && Reads(line, options, options.Keys, all) && n in names
    ensures e[n] == all[n]
  {
    assert line(n, options[n], e[n].0, e[n].1) && line(n, options[n], all[n].0, all[n].1);
  }

  /** An identifier that is in the table already belongs to another option. */
  lemma RepeatedId<V(!new)>(line: Meaning<V>, options: Options, names: set<string>, e: Readings<V>, t: map<u32, V>,
      n: string, id: u32, v: V, all: Readings<V>)
    requires Functional(line) && Building(line, options, names, e, t) && id in t
    requires n in options && n !in names && line(n, options[n], id, v)
    requires Reads(line, options, options.Keys, all)
    ensures !DistinctIds(all)
  {
    var m :| m in e && e[m].0 == id;
    PartAgrees(line, options, names, e, all, m);
    assert line(n, options[n], all[n].0, all[n].1);
    assert all[m].0 == all[n].0;
  }

  // ---------- The resource table ----------

  /** The option line `name = value` defines resource `id` as `r`. */
  ghost predicate ResourceLine(name: string, value: string, id: ResourceId, r: Resource) {
    ParseId(name) == Some(id) && ItemsOf(value).Some? && Describes(ItemsOf(value).value, r)
  }

  ghost function Resources(): Meaning<Resource> {
    (n: string, v: string, id: u32, r: Resource) => ResourceLine(n, v, id, r)
  }

  lemma ResourcesFunctional()
    ensures Functional(Resources())
  {
    forall n, v, i, a, j, b | Resources()(n, v, i, a) && Resources()(n, v, j, b) ensures i == j && a == b {
      DescribesUnique(ItemsOf(v).value, a, b);
    }
  }

  ghost predicate DistinctPorts(e: Readings<Resource>) {
    forall m <- e, n <- e :: e[m].1.port == e[n].1.port ==> m == n
  }

  /** `t` is a table for the options: every line reads as a resource, no identifier and no port twice. */
  ghost predicate ResourceTable(options: Options, e: Readings<Resource>, t: map<ResourceId, Resource>) {
    Building(Resources(), options, options.Keys, e, t) && DistinctPorts(e)
  }

  /** There is at most one table, so the order in which options are visited does not matter. */
  lemma ResourceTableUnique(options: Options, e: Readings<Resource>, t: map<ResourceId, Resource>,
      f: Readings<Resource>, u: map<ResourceId, Resource>)
    requires ResourceTable(options, e, t) && ResourceTable(options, f, u)
    ensures t == u
  {
    ResourcesFunctional();
    ReadsUnique(Resources(), options, options.Keys, e, f);
    TableForUnique(e, t, u);
  }

  /** A port that is in the table already belongs to another option. */
  lemma RepeatedPort(line: Meaning<Resource>, options: Options, names: set<string>, e: Readings<Resource>,
      t: map<u32, Resource>, n: string, id: u32, r: Resource, i: u32, all: Readings<Resource>)
    requires Functional(line) && Building(line, options, names, e, t) && i in t && t[i].port == r.port
    requires n in options && n !in names && line(n, options[n], id, r)
    requires Reads(line, options, options.Keys, all)
    ensures !DistinctPorts(all)
  {
    var m :| m in e && e[m].0 == i;
    PartAgrees(line, options, names, e, all, m);
    assert line(n, options[n], all[n].0, all[n].1);
    assert all[m].1.port == all[n].1.port;
  }

  lemma PortsStayDistinct(e: Readings<Resource>, t: map<u32, Resource>, n: string, id: u32, r: Resource)
    requires DistinctPorts(e) && TableFor(e, t) && n !in e && forall i <- t :: t[i].port != r.port
    ensures DistinctPorts(e[n := (id, r)])
  {
  }

  /** No table exists when the new option repeats an identifier or a port. */
  lemma NoTable(line: Meaning<Resource>, options: Options, names: set<string>, e: Readings<Resource>,
      t: map<u32, Resource>, n: string, id: u32, r: Resource)
    requires Functional(line) && Building(line, options, names, e, t)
    requires n in options && n !in names && line(n, options[n], id, r)
    requires id in t || exists i <- t :: t[i].port == r.port
    ensures forall all :: Reads(line, options, options.Keys, all) ==> !(DistinctIds(all) && DistinctPorts(all))
  {
    forall all | Reads(line, options, options.Keys, all) ensures !(DistinctIds(all) && DistinctPorts(all)) {
      if id in t {
        RepeatedId(line, options, names, e, t, n, id, r, all);
      } else {
        var i :| i in t && t[i].port == r.port;
        RepeatedPort(line, options, names, e, t, n, id, r, i, all);
      }
    }
  }

  lemma Unreadable<V>(line: Meaning<V>, options: Options, n: string, all: Readings<V>)
    requires n in options && forall i, v :: !line(n, options[n], i, v)
    ensures !Reads(line, options, options.Keys, all)
  {
    if Reads(line, options, options.Keys, all) {
      ReadAt(line, options, options.Keys, all, n);
    }
  }

  /** The outcome of the loop: a table, or proof that there is none. */
  ghost predicate NoResources(options: Options) {
    forall all :: Reads(Resources(), options, options.Keys, all) ==> !(DistinctIds(all) && DistinctPorts(all))
  }

  /** One turn of the loop over the options. */
  method AddResource(options: Options, n: string, t: map<ResourceId, Resource>, ghost names: set<string>,
      ghost e: Readings<Resource>)
    returns (ok: bool, t': map<ResourceId, Resource>, ghost e': Readings<Resource>)
    requires n in options && n !in names && Building(Resources(), options, names, e, t) && DistinctPorts(e)
    ensures ok ==> Building(Resources(), options, names + {n}, e', t') && DistinctPorts(e')
    ensures !ok ==> NoResources(options)
  {
    t', e' := t, e;
    var id, res := ReadEntry(n, options[n]);
    if res.None? {
      forall all ensures !Reads(Resources(), options, options.Keys, all) {
        Unreadable(Resources(), options, n, all);
      }
      return false, t, e;
    }
    if id in t || exists i <- t.Keys :: t[i].port == res.value.port {
      ResourcesFunctional();
      NoTable(Resources(), options, names, e, t, n, id, res.value);
      return false, t, e;
    }
    BuildOn(Resources(), options, names, e, t, n, id, res.value);
    PortsStayDistinct(e, t, n, id, res.value);
    ok, t', e' := true, t[id := res.value], e[n := (id, res.value)];
  }

  /**
   * Build the resource table, visiting the options in any order: it succeeds iff there is a table,
   * and the table is then the only one.
   */
  method GetResources(options: Options) returns (r: Option<map<ResourceId, Resource>>, ghost e: Readings<Resource>)
    ensures r.Some? ==> ResourceTable(options, e, r.value)
    ensures r.None? ==> NoResources(options)
  {
    var t: map<ResourceId, Resource> := map[];
    e := map[];
    var todo := options.Keys;
    ghost var done: set<string> := {};
    while todo != {}
      invariant todo <= options.Keys && done == options.Keys - todo
      invariant Building(Resources(), options, done, e, t) && DistinctPorts(e)
      decreases todo
    {
      var n :| n in todo;
      var ok;
      ok, t, e := AddResource(options, n, t, done, e);
      if !ok {
        return None, e;
      }
      todo, done := todo - {n}, done + {n};
    }
    assert done == options.Keys;
    return Some(t), e;
  }

  method ReadEntry(name: string, value: string) returns (id: ResourceId, r: Option<Resource>)
    ensures r.Some? ==> ResourceLine(name, value, id, r.value)
    ensures r.None? ==> forall i, s :: !ResourceLine(name, value, i, s)
  {
    var i := ParseId(name);
    if i.None? {
      return 0, None;
    }
    var items := ParseItems(value);
    if items.None? {
      return 0, None;
    }
    ItemsFilled(value);
    r := ReadResource(items.value);
    id := i.value;
  }

  lemma HasProtocol(n: string, v: string, id: ResourceId, r: Resource)
    requires ResourceLine(n, v, id, r)
    ensures r.tcp || r.udp
  {
  }

  /** A configuration with such a table has unique ports and a protocol for every resource. */
  lemma TableIsOk(conf: Config, options: Options, e: Readings<Resource>)
    requires ResourceTable(options, e, conf.resources)
    ensures TablesOk(conf)
  {
    forall id <- conf.resources ensures conf.resources[id].tcp || conf.resources[id].udp {
      var n :| n in e && e[n].0 == id;
      ReadAt(Resources(), options, options.Keys, e, n);
      HasProtocol(n, options[n], id, conf.resources[id]);
    }
    forall i <- conf.resources, j <- conf.resources | conf.resources[i].port == conf.resources[j].port ensures i == j {
      var m :| m in e && e[m].0 == i;
      var n :| n in e && e[n].0 == j;
    }
  }

  // ---------- The key table ----------

  predicate AllEqual(key: Key, b: byte) {
    forall i :: 0 <= i < |key| ==> key[i] == b
  }

  /** The option line defines this key: 64 hexadecimal digits, not all bytes 00 and not all FF. */
  ghost predicate KeyLine(name: string, value: string, id: UserId, key: Key) {
    && ParseId(name) == Some(id) && HexOf(Trim(value), key)
    && (exists i :: 0 <= i < 32 && key[i] != 0) && (exists i :: 0 <= i < 32 && key[i] != 0xFF)
  }

  ghost function Keys(): Meaning<Key> {
    (n: string, v: string, id: u32, k: Key) => KeyLine(n, v, id, k)
  }

  lemma KeysFunctional()
    ensures Functional(Keys())
  {
    forall n, v, i, k: Key, j, l: Key | Keys()(n, v, i, k) && Keys()(n, v, j, l) ensures i == j && k == l {
      HexOfUnique(Trim(v), k, l);
    }
  }

  /** `t` is a table for the options: every line reads as a key, and no user has two. */
  ghost predicate KeyTable(options: Options, e: Readings<Key>, t: map<UserId, Key>) {
    Building(Keys(), options, options.Keys, e, t)
  }

  lemma KeyTableUnique(options: Options, e: Readings<Key>, t: map<UserId, Key>, f: Readings<Key>, u: map<UserId, Key>)
    requires KeyTable(options, e, t) && KeyTable(options, f, u)
    ensures t == u
  {
    KeysFunctional();
    ReadsUnique(Keys(), options, options.Keys, e, f);
    TableForUnique(e, t, u);
  }

  method ReadKey(name: string, value: string) returns (id: UserId, r: Option<Key>)
    ensures r.Some? ==> KeyLine(name, value, id, r.value)
    ensures r.None? ==> forall i, k :: !KeyLine(name, value, i, k)
  {
    var i := ParseId(name);
    if i.None? {
      return 0, None;
    }
    var bytes := ParseHex(value, 32);
    if bytes.None? {
      return 0, None;
    }
    var key: Key := bytes.value;
    if AllEqual(key, 0) || AllEqual(key, 0xFF) {
      forall k: Key | HexOf(Trim(value), k) ensures k == key {
        HexOfUnique(Trim(value), k, key);
      }
      return 0, None;
    }
    return i.value, Some(key);
  }

  ghost predicate NoKeys(options: Options) {
    forall all: Readings<Key> :: Reads(Keys(), options, options.Keys, all) ==> !DistinctIds(all)
  }

  method AddKey(options: Options, n: string, t: map<UserId, Key>, ghost names: set<string>, ghost e: Readings<Key>)
    returns (ok: bool, t': map<UserId, Key>, ghost e': Readings<Key>)
    requires n in options && n !in names && Building(Keys(), options, names, e, t)
    ensures ok ==> Building(Keys(), options, names + {n}, e', t')
    ensures !ok ==> NoKeys(options)
  {
    t', e' := t, e;
    var id, key := ReadKey(n, options[n]);
    if key.None? {
      forall all: Readings<Key> ensures !Reads(Keys(), options, options.Keys, all) {
        Unreadable(Keys(), options, n, all);
      }
      return false, t, e;
    }
    if id in t {
      KeysFunctional();
      forall all: Readings<Key> | Reads(Keys(), options, options.Keys, all) ensures !DistinctIds(all) {
        RepeatedId(Keys(), options, names, e, t, n, id, key.value, all);
      }
      return false, t, e;
    }
    BuildOn(Keys(), options, names, e, t, n, id, key.value);
    ok, t', e' := true, t[id := key.value], e[n := (id, key.value)];
  }

  /** Build the key table, visiting the options in any order: succeeds iff there is one, and it is unique. */
  method GetKeys(options: Options) returns (r: Option<map<UserId, Key>>, ghost e: Readings<Key>)
    ensures r.Some? ==> KeyTable(options, e, r.value)
    ensures r.None? ==> NoKeys(options)
  {
    var t: map<UserId, Key> := map[];
    e := map[];
    var todo := options.Keys;
    ghost var done: set<string> := {};
    while todo != {}
      invariant todo <= options.Keys && done == options.Keys - todo
      invariant Building(Keys(), options, done, e, t)
      decreases todo
    {
      var n :| n in todo;
      var ok;
      ok, t, e := AddKey(options, n, t, done, e);
      if !ok {
        return None, e;
      }
      todo, done := todo - {n}, done + {n};
    }
    assert done == options.Keys;
    return Some(t), e;
  }
}
