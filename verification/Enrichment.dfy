/** Filling the derived fields of a list of models from one pass over the pricing list and one query for all bound
    channels, instead of a search and a query per model. */
module Enrichment {
  import opened ChannelKey
  import opened IntSets
  import opened Sequences

  datatype Pricing = Pricing(name: string, endpoints: seq<string>, groups: seq<string>, quotaType: int)

  /** An enabled ability of a channel, as the channel query joins it. */
  datatype Binding = Binding(model: string, channel: Channel)

  const EXACT := 0
  const PREFIX := 1
  const CONTAINS := 2
  const SUFFIX := 3

  datatype Endpoints = Unset | Text(text: string) | Listed(types: seq<string>)

  datatype Model = Model(name: string, rule: int, endpoints: Endpoints, channels: seq<Channel>, groups: seq<string>,
                         quotas: seq<int>, matched: seq<string>, count: int)

  predicate HasSuffix(s: string, t: string) {
    |t| <= |s| && s[|s| - |t|..] == t
  }

  predicate HasPart(s: string, t: string) {
    exists i | 0 <= i <= |s| :: t <= s[i..]
  }

  predicate Matches(m: Model, name: string) {
    if m.rule == PREFIX then m.name <= name
    else if m.rule == CONTAINS then HasPart(name, m.name)
    else if m.rule == SUFFIX then HasSuffix(name, m.name)
    else false
  }

  /** What a rule asks of a name: to start with the model's name, to hold it, or to end with it. */
  ghost predicate FitsRule(rule: int, pattern: string, name: string) {
    || (rule == 1 && exists t :: name == pattern + t)
    || (rule == 2 && exists h, t :: name == h + (pattern + t))
    || (rule == 3 && exists h :: name == h + pattern)
  }

  lemma MatchesMeans(m: Model, name: string)
    ensures Matches(m, name) <==> FitsRule(m.rule, m.name, name)
  {
    if m.rule == 1 {
      PrefixMeans(name, m.name);
    } else if m.rule == 2 {
      PartMeans(name, m.name);
    } else if m.rule == 3 {
      SuffixMeans(name, m.name);
    }
  }

  lemma PrefixMeans(s: string, t: string)
    ensures t <= s <==> exists rest :: s == t + rest
  {
    if t <= s {
      assert s == t + s[|t|..];
    }
  }

  lemma SuffixMeans(s: string, t: string)
    ensures HasSuffix(s, t) <==> exists h :: s == h + t
  {
    if HasSuffix(s, t) {
      assert s == s[..|s| - |t|] + t;
    }
    if h :| s == h + t {
      assert s[|s| - |t|..] == t;
    }
  }

  lemma PartMeans(s: string, t: string)
    ensures HasPart(s, t) <==> exists h, rest :: s == h + (t + rest)
  {
    if HasPart(s, t) {
      var i :| 0 <= i <= |s| && t <= s[i..];
      assert s == s[..i] + (t + s[i..][|t|..]);
    }
    if h, rest :| s == h + (t + rest) {
      assert s[|h|..] == t + rest && t <= s[|h|..];
    }
  }

  // ----- The naive computation for one model -----

  function MatchedNames(m: Model, pricings: seq<Pricing>): seq<string> {
    if pricings == [] then []
    else
      var p := pricings[|pricings| - 1];
      MatchedNames(m, pricings[..|pricings| - 1]) + if Matches(m, p.name) then [p.name] else []
  }

  /** The matched names are those of the pricings that fit the rule. */
  lemma {:induction false} MatchedMembers(m: Model, pricings: seq<Pricing>, name: string)
    ensures name in MatchedNames(m, pricings) <==>
      FitsRule(m.rule, m.name, name) && exists p | p in pricings :: p.name == name
  {
    if pricings != [] {
      var past, p := pricings[..|pricings| - 1], pricings[|pricings| - 1];
      MatchedMembers(m, past, name);
      MatchesMeans(m, p.name);
      assert pricings == past + [p];
    }
  }

  function AllEndpoints(m: Model, pricings: seq<Pricing>): set<string> {
    set p, e | p in pricings && Matches(m, p.name) && e in p.endpoints :: e
  }

  function AllGroups(m: Model, pricings: seq<Pricing>): set<string> {
    set p, g | p in pricings && Matches(m, p.name) && g in p.groups :: g
  }

  function AllQuotas(m: Model, pricings: seq<Pricing>): set<int> {
    set p | p in pricings && Matches(m, p.name) :: p.quotaType
  }

  /** The rows of a query without repetitions. */
  function DistinctRows(rows: seq<Binding>): seq<Binding> {
    if rows == [] then []
    else
      var past, row := DistinctRows(rows[..|rows| - 1]), rows[|rows| - 1];
      if row in past then past else past + [row]
  }

  /** The channels bound to one model name, in row order. */
  function BoundTo(rows: seq<Binding>, name: string): seq<Channel> {
    if rows == [] then []
    else
      var b := rows[|rows| - 1];
      BoundTo(rows[..|rows| - 1], name) + if b.model == name then [b.channel] else []
  }

  /** What a query for one name returns. */
  function Queried(bindings: seq<Binding>, name: string): seq<Channel> {
    BoundTo(DistinctRows(bindings), name)
  }

  lemma {:induction false} DistinctMembers(rows: seq<Binding>)
    ensures NoDup(DistinctRows(rows)) && forall row :: row in DistinctRows(rows) <==> row in rows
  {
    if rows != [] {
      DistinctMembers(rows[..|rows| - 1]);
      assert rows == rows[..|rows| - 1] + [rows[|rows| - 1]];
    }
  }

  lemma {:induction false} BoundMembers(rows: seq<Binding>, name: string)
    ensures forall ch :: ch in BoundTo(rows, name) <==> Binding(name, ch) in rows
    ensures NoDup(rows) ==> NoDup(BoundTo(rows, name))
  {
    if rows != [] {
      BoundMembers(rows[..|rows| - 1], name);
      assert rows == rows[..|rows| - 1] + [rows[|rows| - 1]];
    }
  }

  /** It lists every channel bound to the name once. */
  lemma QueriedOnce(bindings: seq<Binding>, name: string)
    ensures NoDup(Queried(bindings, name))
    ensures forall ch :: ch in Queried(bindings, name) <==> Binding(name, ch) in bindings
  {
    DistinctMembers(bindings);
    BoundMembers(DistinctRows(bindings), name);
  }

  function AllChannels(m: Model, pricings: seq<Pricing>, bindings: seq<Binding>): set<Channel> {
    set n, ch | n in MatchedNames(m, pricings) && ch in Queried(bindings, n) :: ch
  }

  /** xs lists exactly the elements of s, each once. */
  ghost predicate Lists<T(!new)>(xs: seq<T>, s: set<T>) {
    NoDup(xs) && forall x :: x in xs <==> x in s
  }

  /** What a rule model must look like afterwards. */
  ghost predicate RuleEnriched(m: Model, m': Model, pricings: seq<Pricing>, bindings: seq<Binding>) {
    var names := MatchedNames(m, pricings);
    && m'.name == m.name && m'.rule == m.rule
    && m'.matched == names && m'.count == |names|
    && (if names == [] then m'.endpoints == m.endpoints && m'.groups == m.groups && m'.quotas == m.quotas
        else
          && (if m.endpoints == Unset then m'.endpoints.Listed? && Lists(m'.endpoints.types, AllEndpoints(m, pricings))
              else m'.endpoints == m.endpoints)
          && Lists(m'.groups, AllGroups(m, pricings))
          && Lists(m'.quotas, AllQuotas(m, pricings)) && Ascending(m'.quotas))
    && (if AllChannels(m, pricings, bindings) == {} then m'.channels == m.channels
        else Lists(m'.channels, AllChannels(m, pricings, bindings)))
  }

  ghost predicate Fits(m: Model, p: Pricing) {
    FitsRule(m.rule, m.name, p.name)
  }

  /** So an enriched model lists the endpoints, groups and quota types of the pricings that fit its rule ... */
  lemma UnionsMean(m: Model, m': Model, pricings: seq<Pricing>, bindings: seq<Binding>)
    requires RuleEnriched(m, m', pricings, bindings) && exists p | p in pricings :: Fits(m, p)
    ensures m.endpoints == Unset ==>
      && m'.endpoints.Listed?
      && forall e :: e in m'.endpoints.types <==> exists p | p in pricings :: Fits(m, p) && e in p.endpoints
    ensures forall g :: g in m'.groups <==> exists p | p in pricings :: Fits(m, p) && g in p.groups
    ensures forall q :: q in m'.quotas <==> exists p | p in pricings :: Fits(m, p) && p.quotaType == q
  {
    forall p: Pricing ensures Matches(m, p.name) <==> Fits(m, p) {
      MatchesMeans(m, p.name);
    }
    var p :| p in pricings && Fits(m, p);
    MatchedMembers(m, pricings, p.name);
  }

  /** ... and the channels bound to their names, or what it had if there are none. */
  lemma ChannelsMean(m: Model, m': Model, pricings: seq<Pricing>, bindings: seq<Binding>)
    requires RuleEnriched(m, m', pricings, bindings)
    ensures
      || (NoDup(m'.channels) && forall ch :: ch in m'.channels <==> FitsSome(m, pricings, bindings, ch))
      || (m'.channels == m.channels && forall ch :: !FitsSome(m, pricings, bindings, ch))
  {
    forall ch ensures ch in AllChannels(m, pricings, bindings) <==> FitsSome(m, pricings, bindings, ch) {
      BoundToFitting(m, pricings, bindings, ch);
    }
  }

  /** The channel is bound to a name that fits the rule and has a pricing. */
  ghost predicate FitsSome(m: Model, pricings: seq<Pricing>, bindings: seq<Binding>, ch: Channel) {
    exists p | p in pricings :: Fits(m, p) && Binding(p.name, ch) in bindings
  }

  lemma BoundToFitting(m: Model, pricings: seq<Pricing>, bindings: seq<Binding>, ch: Channel)
    ensures ch in AllChannels(m, pricings, bindings) <==> FitsSome(m, pricings, bindings, ch)
  {
    if ch in AllChannels(m, pricings, bindings) {
      var n :| n in MatchedNames(m, pricings) && ch in Queried(bindings, n);
      MatchedMembers(m, pricings, n);
      QueriedOnce(bindings, n);
    }
    if FitsSome(m, pricings, bindings, ch) {
      var p :| p in pricings && Fits(m, p) && Binding(p.name, ch) in bindings;
      MatchedMembers(m, pricings, p.name);
      QueriedOnce(bindings, p.name);
    }
  }

  // ----- The batched index -----

  datatype Found = Found(names: seq<string>, endpoints: set<string>, groups: set<string>, quotas: set<int>)

  const NOTHING := Found([], {}, {}, {})

  function Add(f: Found, p: Pricing): Found {
    Found(f.names + [p.name], f.endpoints + Elems(p.endpoints), f.groups + Elems(p.groups), f.quotas + {p.quotaType})
  }

  /** What the index holds for one model after the given pricings. */
  function Index(m: Model, pricings: seq<Pricing>): Found {
    if pricings == [] then NOTHING
    else
      var f, p := Index(m, pricings[..|pricings| - 1]), pricings[|pricings| - 1];
      if Matches(m, p.name) then Add(f, p) else f
  }

  function Entry(found: map<int, Found>, i: int): Found {
    if i in found then found[i] else NOTHING
  }

  lemma IndexNext(m: Model, pricings: seq<Pricing>, k: nat)
    requires k < |pricings|
    ensures
      var f := Index(m, pricings[..k]);
      Index(m, pricings[..k + 1]) == if Matches(m, pricings[k].name) then Add(f, pricings[k]) else f
  {
    assert pricings[..k + 1][..k] == pricings[..k];
  }

  /** The entries of the rules before position r count the first k + 1 pricings, the others the first k. */
  ghost predicate Indexed(found: map<int, Found>, models: seq<Model>, rules: seq<int>, pricings: seq<Pricing>,
                          k: nat, r: nat)
    requires forall q | 0 <= q < |rules| :: 0 <= rules[q] < |models|
    requires k + (if r > 0 then 1 else 0) <= |pricings|
  {
    forall q | 0 <= q < |rules| ::
      Entry(found, rules[q]) == Index(models[rules[q]], pricings[..if q < r then k + 1 else k])
  }

  /** Only what matched gets an entry. */
  ghost predicate OnlyMatched(found: map<int, Found>) {
    forall i | i in found :: found[i].names != []
  }

  method BuildIndex(models: seq<Model>, rules: seq<int>, pricings: seq<Pricing>) returns (found: map<int, Found>)
    requires forall q | 0 <= q < |rules| :: 0 <= rules[q] < |models|
    requires forall q, r | 0 <= q < r < |rules| :: rules[q] != rules[r]
    ensures forall q | 0 <= q < |rules| :: Entry(found, rules[q]) == Index(models[rules[q]], pricings)
    ensures OnlyMatched(found)
  {
    found := map[];
    for k := 0 to |pricings|
      invariant Indexed(found, models, rules, pricings, k, 0) && OnlyMatched(found)
    {
      var p := pricings[k];
      for r := 0 to |rules|
        invariant Indexed(found, models, rules, pricings, k, r) && OnlyMatched(found)
      {
        var i := rules[r];
        IndexNext(models[i], pricings, k);
        if Matches(models[i], p.name) {
          found := found[i := Add(Entry(found, i), p)];
        }
      }
      assert forall q | 0 <= q < |rules| :: Entry(found, rules[q]) == Index(models[rules[q]], pricings[..k + 1]);
    }
    assert pricings[..|pricings|] == pricings;
  }

  /** The index entry is the naive answer. */
  lemma {:induction false} IndexIsNaive(m: Model, pricings: seq<Pricing>)
    ensures Index(m, pricings).names == MatchedNames(m, pricings)
    ensures Index(m, pricings).endpoints == AllEndpoints(m, pricings)
    ensures Index(m, pricings).groups == AllGroups(m, pricings)
    ensures Index(m, pricings).quotas == AllQuotas(m, pricings)
  {
    if pricings != [] {
      var past, p := pricings[..|pricings| - 1], pricings[|pricings| - 1];
      assert pricings == past + [p];
      IndexIsNaive(m, past);
    }
  }

  // ----- The single channel query -----

  function Bound(bound: map<string, seq<Channel>>, name: string): seq<Channel> {
    if name in bound then bound[name] else []
  }

  /** One query for many names groups the rows exactly as a query per name would: every channel bound to a name is
      listed for it once. */
  method QueryBound(bindings: seq<Binding>, names: set<string>) returns (bound: map<string, seq<Channel>>)
    ensures forall n | n in names :: Bound(bound, n) == Queried(bindings, n)
    ensures forall n | n in names ::
      NoDup(Bound(bound, n)) && forall ch :: ch in Bound(bound, n) <==> Binding(n, ch) in bindings
  {
    bound := map[];
    var rows := DistinctRows(bindings);
    for i := 0 to |rows|
      invariant forall n | n in names :: Bound(bound, n) == BoundTo(rows[..i], n)
    {
      var b := rows[i];
      assert rows[..i + 1][..i] == rows[..i];
      if b.model in names {
        bound := bound[b.model := Bound(bound, b.model) + [b.channel]];
      }
    }
    assert rows[..|rows|] == rows;
    forall n | n in names
      ensures NoDup(Bound(bound, n)) && forall ch :: ch in Bound(bound, n) <==> Binding(n, ch) in bindings
    {
      QueriedOnce(bindings, n);
    }
  }

  ghost predicate Holds(byKey: map<string, Channel>, ch: Channel) {
    Key(ch) in byKey && byKey[Key(ch)] == ch
  }

  ghost predicate KeyedRight(byKey: map<string, Channel>) {
    forall k | k in byKey :: Key(byKey[k]) == k
  }

  /** Because keys tell channels apart, storing one channel never displaces another. */
  lemma StoreChannel(byKey: map<string, Channel>, c: Channel, ch: Channel)
    requires KeyedRight(byKey)
    ensures KeyedRight(byKey[Key(c) := c])
    ensures Holds(byKey[Key(c) := c], ch) <==> Holds(byKey, ch) || ch == c
  {
    if Key(ch) == Key(c) {
      KeyInjective(ch, c);
    }
  }

  method StoreChannels(start: map<string, Channel>, chs: seq<Channel>) returns (byKey: map<string, Channel>)
    requires KeyedRight(start)
    ensures KeyedRight(byKey)
    ensures forall ch :: Holds(byKey, ch) <==> Holds(start, ch) || ch in chs
  {
    byKey := start;
    for i := 0 to |chs|
      invariant KeyedRight(byKey)
      invariant forall ch :: Holds(byKey, ch) <==> Holds(start, ch) || ch in chs[..i]
    {
      assert chs[..i + 1] == chs[..i] + [chs[i]];
      forall ch
        ensures KeyedRight(byKey[Key(chs[i]) := chs[i]])
        ensures Holds(byKey[Key(chs[i]) := chs[i]], ch) <==> Holds(byKey, ch) || ch == chs[i]
      {
        StoreChannel(byKey, chs[i], ch);
      }
      byKey := byKey[Key(chs[i]) := chs[i]];
    }
    assert chs[..|chs|] == chs;
  }

  ghost predicate BoundToAny(bindings: seq<Binding>, names: seq<string>, ch: Channel) {
    exists n | n in names :: ch in Queried(bindings, n)
  }

  method CollectChannels(ghost bindings: seq<Binding>, names: seq<string>, bound: map<string, seq<Channel>>)
    returns (byKey: map<string, Channel>)
    requires forall n | n in names :: Bound(bound, n) == Queried(bindings, n)
    ensures KeyedRight(byKey)
    ensures forall ch :: Holds(byKey, ch) <==> BoundToAny(bindings, names, ch)
  {
    byKey := map[];
    for i := 0 to |names|
      invariant KeyedRight(byKey)
      invariant forall ch :: Holds(byKey, ch) <==> BoundToAny(bindings, names[..i], ch)
    {
      assert names[..i + 1] == names[..i] + [names[i]];
      byKey := StoreChannels(byKey, Bound(bound, names[i]));
    }
    assert names[..|names|] == names;
  }

  // ----- Listing sets, in no particular order -----

  method ListStrings(s: set<string>) returns (xs: seq<string>)
    ensures Lists(xs, s)
  {
    xs := [];
    var todo := s;
    while todo != {}
      invariant todo <= s && NoDup(xs)
      invariant forall x :: x in xs <==> x in s && x !in todo
      decreases |todo|
    {
      var x :| x in todo;
      xs, todo := xs + [x], todo - {x};
    }
  }

  method ListChannels(byKey: map<string, Channel>) returns (chs: seq<Channel>)
    requires KeyedRight(byKey)
    ensures NoDup(chs) && forall ch :: ch in chs <==> Holds(byKey, ch)
  {
    chs := [];
    var todo := byKey.Keys;
    while todo != {}
      invariant todo <= byKey.Keys && NoDup(chs)
      invariant forall ch :: ch in chs <==> Holds(byKey, ch) && Key(ch) !in todo
      decreases |todo|
    {
      var k :| k in todo;
      chs, todo := chs + [byKey[k]], todo - {k};
    }
  }

  // ----- Back-filling one rule model -----

  method EnrichRule(m: Model, f: Found, bound: map<string, seq<Channel>>, ghost pricings: seq<Pricing>,
                    ghost bindings: seq<Binding>) returns (m': Model)
    requires f == Index(m, pricings)
    requires forall n | n in f.names :: Bound(bound, n) == Queried(bindings, n)
    ensures RuleEnriched(m, m', pricings, bindings)
  {
    IndexIsNaive(m, pricings);
    m' := m;
    if f.names != [] {
      if m.endpoints == Unset {
        var types := ListStrings(f.endpoints);
        m' := m'.(endpoints := Listed(types));
      }
      var groups := ListStrings(f.groups);
      TakeBatch(f.quotas, |f.quotas|);
      TakeAll(f.quotas, |f.quotas|);
      m' := m'.(groups := groups, quotas := Take(f.quotas, |f.quotas|));
    }
    var byKey := CollectChannels(bindings, f.names, bound);
    ChannelUnion(m, pricings, bindings);
    if byKey != map[] {
      var chs := ListChannels(byKey);
      SomeChannel(byKey);
      m' := m'.(channels := chs);
    } else {
      assert forall ch :: !Holds(byKey, ch);
    }
    m' := m'.(matched := f.names, count := |f.names|);
  }

  lemma ChannelUnion(m: Model, pricings: seq<Pricing>, bindings: seq<Binding>)
    ensures forall ch :: ch in AllChannels(m, pricings, bindings) <==>
      BoundToAny(bindings, MatchedNames(m, pricings), ch)
  {
  }

  lemma SomeChannel(byKey: map<string, Channel>)
    requires byKey != map[] && KeyedRight(byKey)
    ensures exists ch :: Holds(byKey, ch)
  {
    var k :| k in byKey;
    assert Holds(byKey, byKey[k]);
  }

  // ----- The whole list, in place -----

  /** The per-name caches an exact model is filled from. */
  datatype Cache = Cache(endpoints: string -> seq<string>, groups: string -> seq<string>, quotas: string -> seq<int>)

  function ExactEnriched(m: Model, cache: Cache, bindings: seq<Binding>): Model {
    m.(endpoints := if m.endpoints == Unset then Listed(cache.endpoints(m.name)) else m.endpoints,
       channels := Queried(bindings, m.name), groups := cache.groups(m.name), quotas := cache.quotas(m.name))
  }

  ghost predicate Enriched(m: Model, m': Model, cache: Cache, pricings: seq<Pricing>, bindings: seq<Binding>) {
    if m.rule == EXACT then m' == ExactEnriched(m, cache, bindings) else RuleEnriched(m, m', pricings, bindings)
  }

  /** A model with an exact name gets what the caches hold for it and the channels bound to it; only its endpoints are
      kept where it has some. */
  lemma ExactMeans(m: Model, m': Model, cache: Cache, pricings: seq<Pricing>, bindings: seq<Binding>)
    requires m.rule == 0 && Enriched(m, m', cache, pricings, bindings)
    ensures m'.groups == cache.groups(m.name) && m'.quotas == cache.quotas(m.name)
    ensures m'.endpoints == if m.endpoints == Unset then Listed(cache.endpoints(m.name)) else m.endpoints
    ensures NoDup(m'.channels) && forall ch :: ch in m'.channels <==> Binding(m.name, ch) in bindings
    ensures m'.name == m.name && m'.matched == m.matched && m'.count == m.count
  {
    QueriedOnce(bindings, m.name);
  }

  class ModelRecord {
    var meta: Model
  }

  /** Positions of non-null entries with an exact name, and of the others. */
  method SplitByRule(models: seq<ModelRecord?>) returns (exact: seq<int>, rules: seq<int>, metas: seq<Model>)
    ensures |metas| == |models| && forall i | 0 <= i < |models| && models[i] != null :: metas[i] == models[i].meta
    ensures forall i :: i in exact <==> 0 <= i < |models| && models[i] != null && metas[i].rule == EXACT
    ensures forall i :: i in rules <==> 0 <= i < |models| && models[i] != null && metas[i].rule != EXACT
    ensures Ascending(exact) && Ascending(rules)
  {
    exact, rules, metas := [], [], [];
    for i := 0 to |models|
      invariant |metas| == i && forall j | 0 <= j < i && models[j] != null :: metas[j] == models[j].meta
      invariant forall j :: j in exact <==> 0 <= j < i && models[j] != null && metas[j].rule == EXACT
      invariant forall j :: j in rules <==> 0 <= j < i && models[j] != null && metas[j].rule != EXACT
      invariant Ascending(exact) && Ascending(rules)
      invariant (forall q | 0 <= q < |exact| :: exact[q] < i) && (forall q | 0 <= q < |rules| :: rules[q] < i)
    {
      if models[i] == null {
        metas := metas + [Model("", EXACT, Unset, [], [], [], [], 0)];
        continue;
      }
      metas := metas + [models[i].meta];
      if models[i].meta.rule == EXACT {
        exact := exact + [i];
      } else {
        rules := rules + [i];
      }
    }
  }

  ghost predicate Distinct(models: seq<ModelRecord?>) {
    forall i, j | 0 <= i < j < |models| && models[i] != null :: models[i] != models[j]
  }

  method FillExact(models: seq<ModelRecord?>, metas: seq<Model>, exact: seq<int>, cache: Cache, bindings: seq<Binding>)
    requires Distinct(models) && |metas| == |models| && Ascending(exact)
    requires forall i | i in exact :: 0 <= i < |models| && models[i] != null && models[i].meta == metas[i]
    modifies set i | i in exact && 0 <= i < |models| && models[i] != null :: models[i]
    ensures forall i | i in exact :: models[i].meta == ExactEnriched(metas[i], cache, bindings)
  {
    assert forall r | 0 <= r < |exact| :: exact[r] in exact;
    var names := set i | i in exact :: metas[i].name;
    var bound := QueryBound(bindings, names);
    for q := 0 to |exact|
      invariant forall r | 0 <= r < q :: models[exact[r]].meta == ExactEnriched(metas[exact[r]], cache, bindings)
      invariant forall r | q <= r < |exact| :: exact[r] in exact && models[exact[r]].meta == metas[exact[r]]
    {
      var m := models[exact[q]];
      assert exact[q] in exact && metas[exact[q]].name in names;
      if m.meta.endpoints == Unset {
        m.meta := m.meta.(endpoints := Listed(cache.endpoints(m.meta.name)));
      }
      m.meta := m.meta.(channels := Bound(bound, m.meta.name), groups := cache.groups(m.meta.name),
                        quotas := cache.quotas(m.meta.name));
      forall r | 0 <= r < |exact| && r != q ensures models[exact[r]] != m {
      }
    }
  }

  method FillRules(models: seq<ModelRecord?>, metas: seq<Model>, rules: seq<int>, pricings: seq<Pricing>,
                   bindings: seq<Binding>)
    requires Distinct(models) && |metas| == |models| && Ascending(rules)
    requires forall i | i in rules :: 0 <= i < |models| && models[i] != null && models[i].meta == metas[i]
    modifies set i | i in rules && 0 <= i < |models| && models[i] != null :: models[i]
    ensures forall i | i in rules :: RuleEnriched(metas[i], models[i].meta, pricings, bindings)
  {
    assert forall r | 0 <= r < |rules| :: rules[r] in rules;
    var found := BuildIndex(metas, rules, pricings);
    var names := set i, n | i in found && n in found[i].names :: n;
    var bound := QueryBound(bindings, names);
    for q := 0 to |rules|
      invariant forall r | 0 <= r < q :: RuleEnriched(metas[rules[r]], models[rules[r]].meta, pricings, bindings)
      invariant forall r | q <= r < |rules| :: rules[r] in rules && models[rules[r]].meta == metas[rules[r]]
    {
      var i := rules[q];
      var m := models[i];
      var f := Entry(found, i);
      var meta := EnrichRule(m.meta, f, bound, pricings, bindings);
      m.meta := meta;
      forall r | 0 <= r < |rules| && r != q ensures models[rules[r]] != m {
      }
    }
  }

  /** Batched enrichment gives every model what the naive computation would. */
  method EnrichModels(models: seq<ModelRecord?>, cache: Cache, pricings: seq<Pricing>, bindings: seq<Binding>)
    requires Distinct(models)
    modifies set m | m in models && m != null
    ensures forall i | 0 <= i < |models| && models[i] != null ::
      Enriched(old(models[i].meta), models[i].meta, cache, pricings, bindings)
    ensures forall i, name | 0 <= i < |models| && models[i] != null && models[i].meta.rule != 0 ::
      name in models[i].meta.matched <==>
      FitsRule(models[i].meta.rule, models[i].meta.name, name) && exists p | p in pricings :: p.name == name
  {
    var exact, rules, metas := SplitByRule(models);
    FillExact(models, metas, exact, cache, bindings);
    if |rules| == 0 {
      return;
    }
    FillRules(models, metas, rules, pricings, bindings);
    forall i, name | i in rules
      ensures name in models[i].meta.matched <==>
        FitsRule(models[i].meta.rule, models[i].meta.name, name) && exists p | p in pricings :: p.name == name
    {
      MatchedMembers(metas[i], pricings, name);
    }
  }
}
