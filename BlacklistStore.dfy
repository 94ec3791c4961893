/**
 * The in-memory blacklist store: a plain-object map from lower-cased name to entry,
 * seeded with five sample entries, with lookup, listing, add, remove and statistics.
 *
 * The object map is modelled as a `Registry` value: the map itself plus the order in
 * which object iteration (`Object.values`) visits its keys, which for these keys is
 * insertion order (assigning to an existing key keeps its place, `delete` removes it).
 * The store object is a class whose fields hold that value and whose methods update it.
 * Timestamps are milliseconds since the epoch, taken from a clock parameter.
 */
module BlacklistStore {
  import opened Wrappers
  import opened Text

  /** A blacklist record. `addedAt` is the instant it was stored, in milliseconds. */
  datatype Entry = Entry(
    name: string,
    reason: Option<string>,
    addedAt: int,
    addedBy: Option<string>,
    category: Option<string>)

  /** What a caller passes to the add operation: an entry without its timestamp. */
  datatype Draft = Draft(
    name: string,
    reason: Option<string>,
    addedBy: Option<string>,
    category: Option<string>)

  /** The store's map, with the keys in iteration order. */
  datatype Registry = Registry(order: seq<string>, names: map<string, Entry>)

  /** The result of the statistics query. */
  datatype Stats = Stats(total: nat, categories: map<string, nat>, lastUpdated: int)

  predicate NoDuplicates(s: seq<string>) {
    forall i, j :: 0 <= i < j < |s| ==> s[i] != s[j]
  }

  /** The store's invariant: the order lists each key once, and every key is the
      lower-cased name of the entry stored under it. */
  ghost predicate WellFormed(r: Registry) {
    && NoDuplicates(r.order)
    && (forall k :: k in r.names <==> k in r.order)
    && (forall k :: k in r.names ==> k == Lower(r.names[k].name))
  }

  lemma {:induction false} DistinctCount(s: seq<string>)
    requires NoDuplicates(s)
    ensures |set k | k in s| == |s|
  {
    if s != [] {
      DistinctCount(s[1..]);
      assert (set k | k in s) == {s[0]} + (set k | k in s[1..]);
      assert s[0] !in s[1..];
    }
  }

  /** A well-formed registry has as many entries in its iteration order as keys in its map. */
  lemma OrderCountsKeys(r: Registry)
    requires WellFormed(r)
    ensures |r.order| == |r.names|
  {
    DistinctCount(r.order);
    assert r.names.Keys == set k | k in r.order;
  }

  // ---------------------------------------------------------------- queries

  /** `isBlacklisted(name)`: is the lower-cased name a key of the map. */
  predicate IsBlacklisted(r: Registry, name: string) {
    Lower(name) in r.names
  }

  /** `getBlacklistEntry(name)`: the entry stored under the lower-cased name, if any. */
  function GetBlacklistEntry(r: Registry, name: string): (e: Option<Entry>)
    requires WellFormed(r)
    ensures e.Some? <==> IsBlacklisted(r, name)
    ensures e.Some? ==> Lower(e.value.name) == Lower(name) && e.value in r.names.Values
  {
    var key := Lower(name);
    if key in r.names then Some(r.names[key]) else None
  }

  /** `getAllBlacklisted()`: the stored entries, one per key, in iteration order. */
  function GetAllBlacklisted(r: Registry): (es: seq<Entry>)
    requires WellFormed(r)
    ensures |es| == |r.order| == |r.names|
    ensures forall i :: 0 <= i < |es| ==> r.order[i] in r.names && es[i] == r.names[r.order[i]]
  {
    OrderCountsKeys(r);
    seq(|r.order|, i requires 0 <= i < |r.order| => r.names[r.order[i]])
  }

  /** The listing holds exactly the stored entries: each listed entry is what a lookup of
      its own name finds, and every stored entry is listed. */
  lemma ListingIsComplete(r: Registry)
    requires WellFormed(r)
    ensures forall e :: e in GetAllBlacklisted(r) ==> GetBlacklistEntry(r, e.name) == Some(e)
    ensures forall k :: k in r.names ==> r.names[k] in GetAllBlacklisted(r)
  {
    var es := GetAllBlacklisted(r);
    forall k | k in r.names ensures r.names[k] in es {
      var i :| 0 <= i < |r.order| && r.order[i] == k;
      assert es[i] == r.names[k];
    }
  }

  // ---------------------------------------------------------------- statistics

  /** The category an entry is counted under: `entry.category || 'other'`. */
  function CategoryOf(e: Entry): string {
    if e.category.None? || e.category.value == "" then "other" else e.category.value
  }

  /** 1 when `e` is counted under category `c`, else 0. */
  function CountsAs(e: Entry, c: string): nat {
    if CategoryOf(e) == c then 1 else 0
  }

  /** How many of `es` are counted under category `c`. */
  function Occurrences(es: seq<Entry>, c: string): (n: nat)
    ensures n <= |es|
  {
    if es == [] then 0 else Occurrences(es[..|es| - 1], c) + CountsAs(es[|es| - 1], c)
  }

  /** The count over five entries, written out. */
  lemma OccurrencesFive(e0: Entry, e1: Entry, e2: Entry, e3: Entry, e4: Entry, c: string)
    ensures Occurrences([e0, e1, e2, e3, e4], c)
      == CountsAs(e0, c) + CountsAs(e1, c) + CountsAs(e2, c) + CountsAs(e3, c) + CountsAs(e4, c)
  {
    assert [e0, e1, e2, e3, e4][..4] == [e0, e1, e2, e3];
    assert Occurrences([e0, e1, e2, e3, e4], c) == Occurrences([e0, e1, e2, e3], c) + CountsAs(e4, c);
    assert [e0, e1, e2, e3][..3] == [e0, e1, e2];
    assert Occurrences([e0, e1, e2, e3], c) == Occurrences([e0, e1, e2], c) + CountsAs(e3, c);
    assert [e0, e1, e2][..2] == [e0, e1];
    assert Occurrences([e0, e1, e2], c) == Occurrences([e0, e1], c) + CountsAs(e2, c);
    assert [e0, e1][..1] == [e0];
    assert Occurrences([e0, e1], c) == Occurrences([e0], c) + CountsAs(e1, c);
    assert [e0][..0] == [];
  }

  /** The `reduce` over the entries that counts them per category, left to right. */
  function CountCategories(es: seq<Entry>): (m: map<string, nat>)
    ensures forall c :: c in m <==> Occurrences(es, c) > 0
    ensures forall c :: c in m ==> m[c] == Occurrences(es, c)
  {
    if es == [] then map[]
    else
      var acc := CountCategories(es[..|es| - 1]);
      var c := CategoryOf(es[|es| - 1]);
      acc[c := (if c in acc then acc[c] else 0) + 1]
  }

  /** The largest `addedAt` of a non-empty list (`Math.max(...)`). */
  function MaxAddedAt(es: seq<Entry>): (t: int)
    requires es != []
    ensures forall i :: 0 <= i < |es| ==> es[i].addedAt <= t
    ensures exists i :: 0 <= i < |es| && es[i].addedAt == t
  {
    if |es| == 1 then es[0].addedAt
    else
      var m := MaxAddedAt(es[..|es| - 1]);
      var last := es[|es| - 1].addedAt;
      if m < last then last else m
  }

  /** `getBlacklistStats()`, with `now` standing for `Date.now()`. */
  function GetBlacklistStats(r: Registry, now: int): (s: Stats)
    requires WellFormed(r)
    ensures s.total == |r.names| == |GetAllBlacklisted(r)|
    ensures forall c :: c in s.categories <==> Occurrences(GetAllBlacklisted(r), c) > 0
    ensures forall c :: c in s.categories ==> s.categories[c] == Occurrences(GetAllBlacklisted(r), c)
    ensures r.names == map[] ==> s.lastUpdated == now
    ensures r.names != map[] ==>
      && (forall k :: k in r.names ==> r.names[k].addedAt <= s.lastUpdated)
      && (exists k :: k in r.names && r.names[k].addedAt == s.lastUpdated)
  {
    var es := GetAllBlacklisted(r);
    var lastUpdated := if |es| > 0 then MaxAddedAt(es) else now;
    LatestIsStored(r);
    LatestIsMax(r);
    Stats(|es|, CountCategories(es), lastUpdated)
  }

  /** The maximum over the listed entries is the `addedAt` of some stored entry ... */
  lemma LatestIsStored(r: Registry)
    requires WellFormed(r)
    ensures r.names != map[] ==> GetAllBlacklisted(r) != []
    ensures r.names != map[] ==>
      exists k :: k in r.names && r.names[k].addedAt == MaxAddedAt(GetAllBlacklisted(r))
  {
    if r.names == map[] { return; }
    ListingIsComplete(r);
    var es := GetAllBlacklisted(r);
    var i :| 0 <= i < |es| && es[i].addedAt == MaxAddedAt(es);
    assert es[i] in es;
    assert GetBlacklistEntry(r, es[i].name) == Some(es[i]);
    var k := Lower(es[i].name);
    assert k in r.names && r.names[k] == es[i];
  }

  /** ... and no stored entry was added later. */
  lemma LatestIsMax(r: Registry)
    requires WellFormed(r)
    ensures r.names != map[] ==> GetAllBlacklisted(r) != []
    ensures r.names != map[] ==>
      forall k :: k in r.names ==> r.names[k].addedAt <= MaxAddedAt(GetAllBlacklisted(r))
  {
    if r.names == map[] { return; }
    ListingIsComplete(r);
    var es := GetAllBlacklisted(r);
    forall k | k in r.names ensures r.names[k].addedAt <= MaxAddedAt(es) {
      var j :| 0 <= j < |es| && es[j] == r.names[k];
    }
  }

  /** The sum of the counts in a per-category map. */
  ghost function MapSum(m: map<string, nat>): nat
    decreases |m|
  {
    if m == map[] then 0
    else
      var k :| k in m;
      assert |m - {k}| < |m| by {
        assert (m - {k}).Keys == m.Keys - {k};
      }
      m[k] + MapSum(m - {k})
  }

  /** The sum does not depend on which key is taken out first. */
  lemma {:induction false} MapSumTake(m: map<string, nat>, k: string)
    requires k in m
    ensures MapSum(m) == m[k] + MapSum(m - {k})
    decreases |m|
  {
    var j :| j in m && MapSum(m) == m[j] + MapSum(m - {j});
    if j != k {
      assert (m - {j}).Keys == m.Keys - {j};
      MapSumTake(m - {j}, k);
      assert (m - {k}).Keys == m.Keys - {k};
      MapSumTake(m - {k}, j);
      assert m - {j} - {k} == m - {k} - {j};
    }
  }

  /** The per-category counts of a list add up to its length. */
  lemma {:induction false} CountCategoriesSum(es: seq<Entry>)
    ensures MapSum(CountCategories(es)) == |es|
  {
    if es != [] {
      var init := es[..|es| - 1];
      var acc := CountCategories(init);
      var c := CategoryOf(es[|es| - 1]);
      var m := CountCategories(es);
      CountCategoriesSum(init);
      MapSumTake(m, c);
      if c in acc {
        MapSumTake(acc, c);
        assert m - {c} == acc - {c};
      } else {
        assert m - {c} == acc;
      }
    }
  }

  /** The statistics' category counts add up to `total`. */
  lemma StatsCategoriesSumToTotal(r: Registry, now: int)
    requires WellFormed(r)
    ensures MapSum(GetBlacklistStats(r, now).categories) == GetBlacklistStats(r, now).total
  {
    CountCategoriesSum(GetAllBlacklisted(r));
  }

  lemma {:induction false} OccurrencesPositive(es: seq<Entry>, i: nat)
    requires i < |es|
    ensures Occurrences(es, CategoryOf(es[i])) > 0
  {
    if i < |es| - 1 {
      OccurrencesPositive(es[..|es| - 1], i);
    }
  }

  /** An entry without a category (or with an empty one) is counted under `other`. */
  lemma MissingCategoryCountsAsOther(r: Registry, now: int, key: string)
    requires WellFormed(r)
    requires key in r.names && (r.names[key].category.None? || r.names[key].category == Some(""))
    ensures "other" in GetBlacklistStats(r, now).categories
    ensures GetBlacklistStats(r, now).categories["other"] >= 1
  {
    ListingIsComplete(r);
    var es := GetAllBlacklisted(r);
    var i :| 0 <= i < |es| && es[i] == r.names[key];
    OccurrencesPositive(es, i);
  }

  // ---------------------------------------------------------------- updates

  /** The entry `addToBlacklist` stores: the caller's fields plus `addedAt` from the clock. */
  function Stamp(d: Draft, now: int): Entry {
    Entry(d.name, d.reason, now, d.addedBy, d.category)
  }

  /** `this.blacklistedNames[key] = e`: overwrite in place, or append the key. */
  function Put(r: Registry, key: string, e: Entry): Registry {
    Registry(if key in r.names then r.order else r.order + [key], r.names[key := e])
  }

  /** The iteration order once `key` is deleted. */
  function Without(s: seq<string>, key: string): (t: seq<string>)
    ensures forall k :: k in t <==> k in s && k != key
    ensures NoDuplicates(s) ==> NoDuplicates(t)
  {
    if s == [] then []
    else
      var rest := Without(s[1..], key);
      assert NoDuplicates(s) ==> s[0] !in s[1..];
      if s[0] == key then rest else [s[0]] + rest
  }

  /** `delete this.blacklistedNames[key]`. */
  function Delete(r: Registry, key: string): Registry {
    Registry(Without(r.order, key), r.names - {key})
  }

  /** Adding stores the stamped entry under the lower-cased name, overwriting any entry
      already there (last write wins) and leaving every other key as it was. */
  lemma AddSemantics(r: Registry, d: Draft, now: int)
    requires WellFormed(r)
    ensures var r' := Put(r, Lower(d.name), Stamp(d, now));
      && WellFormed(r')
      && IsBlacklisted(r', d.name)
      && GetBlacklistEntry(r', d.name) == Some(Stamp(d, now))
      && (forall k :: k != Lower(d.name) ==> (k in r'.names <==> k in r.names))
      && (forall k :: k != Lower(d.name) && k in r.names ==> r'.names[k] == r.names[k])
      && |r'.names| == if IsBlacklisted(r, d.name) then |r.names| else |r.names| + 1
  {
    var r' := Put(r, Lower(d.name), Stamp(d, now));
    assert NoDuplicates(r'.order);
  }

  /** Two adds under names that lower-case alike leave one entry: the second. */
  lemma AddTwiceLastWins(r: Registry, d1: Draft, d2: Draft, t1: int, t2: int)
    requires WellFormed(r)
    requires Lower(d1.name) == Lower(d2.name)
    ensures var once := Put(r, Lower(d1.name), Stamp(d1, t1));
      var twice := Put(once, Lower(d2.name), Stamp(d2, t2));
      && GetBlacklistEntry(twice, d1.name) == Some(Stamp(d2, t2))
      && |twice.names| == |once.names|
      && twice.order == once.order
  {
    AddSemantics(r, d1, t1);
    AddSemantics(Put(r, Lower(d1.name), Stamp(d1, t1)), d2, t2);
  }

  /** Removing a present name deletes exactly its entry; afterwards the name is not listed. */
  lemma RemoveSemantics(r: Registry, name: string)
    requires WellFormed(r)
    ensures var r' := Delete(r, Lower(name));
      && WellFormed(r')
      && !IsBlacklisted(r', name)
      && (forall k :: k != Lower(name) ==> (k in r'.names <==> k in r.names))
      && (forall k :: k != Lower(name) && k in r.names ==> r'.names[k] == r.names[k])
      && |r'.names| == if IsBlacklisted(r, name) then |r.names| - 1 else |r.names|
  {
  }

  lemma {:induction false} WithoutAppended(s: seq<string>, key: string)
    requires key !in s
    ensures Without(s + [key], key) == s
  {
    if s == [] {
      assert Without([key], key) == Without([], key);
    } else {
      assert (s + [key])[1..] == s[1..] + [key];
      WithoutAppended(s[1..], key);
    }
  }

  /** Putting an entry under a fresh key and deleting that key gives back the registry,
      iteration order included. */
  lemma PutThenDeleteRestores(r: Registry, key: string, e: Entry)
    requires WellFormed(r)
    requires key !in r.names
    ensures Delete(Put(r, key, e), key) == r
  {
    WithoutAppended(r.order, key);
  }

  /** Looking a name up is blind to its case: the lower-cased name finds the same entry. */
  lemma LookupIgnoresCase(r: Registry, name: string)
    requires WellFormed(r)
    ensures IsBlacklisted(r, name) == IsBlacklisted(r, Lower(name))
    ensures GetBlacklistEntry(r, name) == GetBlacklistEntry(r, Lower(name))
  {
    LowerIdempotent(name);
  }

  // ---------------------------------------------------------------- seeding

  /** The five sample entries the store is created with, in their declared order. */
  function SampleEntries(): seq<Entry> {
    [ Entry("malicious_user", Some("Security threat detected"), 1705312800000,
            Some("security_team"), Some("security")),
      Entry("spam_bot", Some("Automated spam behavior"), 1706797800000,
            Some("admin"), Some("policy")),
      Entry("test_user_blocked", Some("Test account for compliance testing"), 1710062100000,
            Some("compliance_team"), Some("compliance")),
      Entry("deprecated_account", Some("Legacy account no longer supported"), 1704473100000,
            Some("system"), Some("policy")),
      Entry("suspicious_actor", Some("Multiple policy violations"), 1708428000000,
            Some("moderator"), Some("security")) ]
  }

  /** The registry after inserting `es` one by one into an empty map, as `forEach` does. */
  function Index(es: seq<Entry>): Registry {
    if es == [] then Registry([], map[])
    else
      var last := es[|es| - 1];
      Put(Index(es[..|es| - 1]), Lower(last.name), last)
  }

  lemma IndexSnoc(es: seq<Entry>, e: Entry)
    ensures Index(es + [e]) == Put(Index(es), Lower(e.name), e)
  {
    assert (es + [e])[..|es|] == es;
  }

  lemma {:induction false} IndexWellFormed(es: seq<Entry>)
    ensures WellFormed(Index(es))
  {
    if es != [] {
      var last := es[|es| - 1];
      IndexWellFormed(es[..|es| - 1]);
      AddSemantics(Index(es[..|es| - 1]),
        Draft(last.name, last.reason, last.addedBy, last.category), last.addedAt);
    }
  }

  /** The sample names are already lower-case, so each is its own key. */
  lemma SampleNamesAreKeys()
    ensures Lower("malicious_user") == "malicious_user"
    ensures Lower("spam_bot") == "spam_bot"
    ensures Lower("test_user_blocked") == "test_user_blocked"
    ensures Lower("deprecated_account") == "deprecated_account"
    ensures Lower("suspicious_actor") == "suspicious_actor"
  {
    LowerOfLowercase("malicious_user");
    LowerOfLowercase("spam_bot");
    LowerOfLowercase("test_user_blocked");
    LowerOfLowercase("deprecated_account");
    LowerOfLowercase("suspicious_actor");
  }

  /** The registry a new store holds: the five samples in declaration order, each under
      its own name (the sample names are already lower-case). */
  function Seeded(): (r: Registry)
    ensures WellFormed(r) && |r.names| == 5
  {
    var es := SampleEntries();
    SampleNamesAreKeys();
    WellFormedFive("malicious_user", "spam_bot", "test_user_blocked", "deprecated_account",
                   "suspicious_actor", es[0], es[1], es[2], es[3], es[4]);
    Registry(
      ["malicious_user", "spam_bot", "test_user_blocked", "deprecated_account", "suspicious_actor"],
      map["malicious_user" := es[0], "spam_bot" := es[1], "test_user_blocked" := es[2],
          "deprecated_account" := es[3], "suspicious_actor" := es[4]])
  }

  /** Five entries, each under its own lower-cased name, make a well-formed registry of
      five keys when the names are distinct. */
  lemma WellFormedFive(k0: string, k1: string, k2: string, k3: string, k4: string,
                       e0: Entry, e1: Entry, e2: Entry, e3: Entry, e4: Entry)
    requires k0 == Lower(e0.name) && k1 == Lower(e1.name) && k2 == Lower(e2.name)
    requires k3 == Lower(e3.name) && k4 == Lower(e4.name)
    requires && k0 != k1 && k0 != k2 && k0 != k3 && k0 != k4 && k1 != k2 && k1 != k3 && k1 != k4
             && k2 != k3 && k2 != k4 && k3 != k4
    ensures var r := Registry([k0, k1, k2, k3, k4],
                              map[k0 := e0, k1 := e1, k2 := e2, k3 := e3, k4 := e4]);
      WellFormed(r) && |r.names| == 5
  {
    var r := Registry([k0, k1, k2, k3, k4], map[k0 := e0, k1 := e1, k2 := e2, k3 := e3, k4 := e4]);
    assert WellFormed(r);
    OrderCountsKeys(r);
  }

  /** Every seeded key is told apart from the others by its length and first letter. */
  lemma SeededKeyShapes()
    ensures forall k :: k in Seeded().names ==>
      || (|k| == 14 && k[0] == 'm') || (|k| == 8 && k[0] == 's') || (|k| == 17 && k[0] == 't')
      || (|k| == 18 && k[0] == 'd') || (|k| == 16 && k[0] == 's')
  {
  }

  /** Inserting the samples one by one, as the constructor does, yields exactly the seeded
      registry: five entries, each keyed by its lower-cased name, in declaration order. */
  lemma InitialState()
    ensures Index(SampleEntries()) == Seeded()
  {
    var es := SampleEntries();
    SampleNamesAreKeys();
    assert es == [es[0], es[1], es[2], es[3], es[4]];
    IndexFive(es[0], es[1], es[2], es[3], es[4]);
  }

  /** Five entries under five distinct keys are indexed in the order given. */
  lemma IndexFive(e0: Entry, e1: Entry, e2: Entry, e3: Entry, e4: Entry)
    requires var k0, k1, k2, k3, k4 :=
        Lower(e0.name), Lower(e1.name), Lower(e2.name), Lower(e3.name), Lower(e4.name);
      && k0 != k1 && k0 != k2 && k0 != k3 && k0 != k4 && k1 != k2 && k1 != k3 && k1 != k4
      && k2 != k3 && k2 != k4 && k3 != k4
    ensures var k0, k1, k2, k3, k4 :=
        Lower(e0.name), Lower(e1.name), Lower(e2.name), Lower(e3.name), Lower(e4.name);
      Index([e0, e1, e2, e3, e4])
        == Registry([k0, k1, k2, k3, k4], map[k0 := e0, k1 := e1, k2 := e2, k3 := e3, k4 := e4])
  {
    var k0, k1, k2, k3, k4 := Lower(e0.name), Lower(e1.name), Lower(e2.name), Lower(e3.name), Lower(e4.name);
    var r1 := Registry([k0], map[k0 := e0]);
    assert Index([e0]) == r1 by {
      IndexSnoc([], e0);
      assert [] + [e0] == [e0];
    }
    var r2 := Registry([k0, k1], map[k0 := e0, k1 := e1]);
    assert Index([e0, e1]) == r2 by {
      IndexSnoc([e0], e1);
      assert [e0] + [e1] == [e0, e1];
      assert r1.order + [k1] == r2.order;
    }
    var r3 := Registry([k0, k1, k2], map[k0 := e0, k1 := e1, k2 := e2]);
    assert Index([e0, e1, e2]) == r3 by {
      IndexSnoc([e0, e1], e2);
      assert [e0, e1] + [e2] == [e0, e1, e2];
      assert r2.order + [k2] == r3.order;
    }
    var r4 := Registry([k0, k1, k2, k3], map[k0 := e0, k1 := e1, k2 := e2, k3 := e3]);
    assert Index([e0, e1, e2, e3]) == r4 by {
      IndexSnoc([e0, e1, e2], e3);
      assert [e0, e1, e2] + [e3] == [e0, e1, e2, e3];
      assert r3.order + [k3] == r4.order;
    }
    IndexSnoc([e0, e1, e2, e3], e4);
    assert [e0, e1, e2, e3] + [e4] == [e0, e1, e2, e3, e4];
    assert r4.order + [k4] == [k0, k1, k2, k3, k4];
  }

  /** Five entries under five distinct keys are listed in the order of their keys. */
  lemma ListingFive(k0: string, k1: string, k2: string, k3: string, k4: string,
                    e0: Entry, e1: Entry, e2: Entry, e3: Entry, e4: Entry)
    requires k0 == Lower(e0.name) && k1 == Lower(e1.name) && k2 == Lower(e2.name)
    requires k3 == Lower(e3.name) && k4 == Lower(e4.name)
    requires && k0 != k1 && k0 != k2 && k0 != k3 && k0 != k4 && k1 != k2 && k1 != k3 && k1 != k4
             && k2 != k3 && k2 != k4 && k3 != k4
    ensures var r := Registry([k0, k1, k2, k3, k4],
                              map[k0 := e0, k1 := e1, k2 := e2, k3 := e3, k4 := e4]);
      WellFormed(r) && GetAllBlacklisted(r) == [e0, e1, e2, e3, e4]
  {
    var r := Registry([k0, k1, k2, k3, k4], map[k0 := e0, k1 := e1, k2 := e2, k3 := e3, k4 := e4]);
    WellFormedFive(k0, k1, k2, k3, k4, e0, e1, e2, e3, e4);
    var es := GetAllBlacklisted(r);
    assert es[0] == e0 && es[1] == e1 && es[2] == e2 && es[3] == e3 && es[4] == e4;
  }

  /** A fresh store lists the five samples in the order they were declared. */
  lemma SeededListing()
    ensures GetAllBlacklisted(Seeded()) == SampleEntries()
  {
    var es := SampleEntries();
    SampleNamesAreKeys();
    ListingFive("malicious_user", "spam_bot", "test_user_blocked", "deprecated_account",
                "suspicious_actor", es[0], es[1], es[2], es[3], es[4]);
    assert es == [es[0], es[1], es[2], es[3], es[4]];
  }

  /** The samples count two `security`, two `policy` and one `compliance` entry. */
  lemma SampleCategories()
    ensures CountCategories(SampleEntries())
      == map["security" := 2, "policy" := 2, "compliance" := 1]
  {
    var es := SampleEntries();
    assert es == [es[0], es[1], es[2], es[3], es[4]];
    CategoriesFive(es[0], es[1], es[2], es[3], es[4]);
    OccurrencesFive(es[0], es[1], es[2], es[3], es[4], "security");
    OccurrencesFive(es[0], es[1], es[2], es[3], es[4], "policy");
    OccurrencesFive(es[0], es[1], es[2], es[3], es[4], "compliance");
  }

  /** The categories five entries are counted under are those of the five entries. */
  lemma CategoriesFive(e0: Entry, e1: Entry, e2: Entry, e3: Entry, e4: Entry)
    ensures CountCategories([e0, e1, e2, e3, e4]).Keys
      == {CategoryOf(e0), CategoryOf(e1), CategoryOf(e2), CategoryOf(e3), CategoryOf(e4)}
  {
    forall c ensures c in CountCategories([e0, e1, e2, e3, e4])
      <==> c in {CategoryOf(e0), CategoryOf(e1), CategoryOf(e2), CategoryOf(e3), CategoryOf(e4)}
    {
      OccurrencesFive(e0, e1, e2, e3, e4, c);
    }
  }

  /** The latest sample was added at 2024-03-10T09:15:00Z. */
  lemma SampleLatest()
    ensures MaxAddedAt(SampleEntries()) == 1710062100000
  {
  }

  /** The statistics of a fresh store: five entries, two `security`, two `policy`, one
      `compliance`, last updated at 2024-03-10T09:15:00Z, whatever the clock says. */
  lemma SeededStats(now: int)
    ensures GetBlacklistStats(Seeded(), now)
      == Stats(5, map["security" := 2, "policy" := 2, "compliance" := 1], 1710062100000)
  {
    SeededListing();
    SampleCategories();
    SampleLatest();
  }

  // ---------------------------------------------------------------- the store object

  /** `BlacklistStore`: one object owning the registry, updated in place. */
  class Store {
    var order: seq<string>
    var names: map<string, Entry>

    function State(): Registry
      reads this
    {
      Registry(order, names)
    }

    ghost predicate Valid()
      reads this
    {
      WellFormed(State())
    }

    /** The constructor with `initializeSampleData`: inserts the samples one by one. */
    constructor ()
      ensures Valid() && State() == Seeded()
    {
      order, names := [], map[];
      new;
      var samples := SampleEntries();
      for i := 0 to |samples|
        invariant State() == Index(samples[..i])
      {
        var e := samples[i];
        var key := Lower(e.name);
        assert samples[..i + 1][..i] == samples[..i];
        assert Index(samples[..i + 1]) == Put(State(), key, e);
        if key !in names {
          order := order + [key];
        }
        names := names[key := e];
      }
      assert samples[..|samples|] == samples;
      InitialState();
    }

    /** `addToBlacklist(entry)`: stamps the entry with the clock and stores it under the
        lower-cased name, overwriting whatever was there. */
    method Add(d: Draft, now: int) returns (e: Entry)
      requires Valid()
      modifies this
      ensures Valid()
      ensures e.name == d.name && e.reason == d.reason && e.addedBy == d.addedBy
      ensures e.category == d.category && e.addedAt == now
      ensures State() == Put(old(State()), Lower(d.name), e)
    {
      AddSemantics(State(), d, now);
      e := Entry(d.name, d.reason, now, d.addedBy, d.category);
      var key := Lower(d.name);
      if key !in names {
        order := order + [key];
      }
      names := names[key := e];
    }

    /** `removeFromBlacklist(name)`: deletes the entry under the lower-cased name, reporting
        whether there was one; an absent name leaves the store as it was. */
    method Remove(name: string) returns (removed: bool)
      requires Valid()
      modifies this
      ensures Valid()
      ensures removed == IsBlacklisted(old(State()), name)
      ensures State() == if removed then Delete(old(State()), Lower(name)) else old(State())
    {
      RemoveSemantics(State(), name);
      var key := Lower(name);
      if key in names {
        names := names - {key};
        order := Without(order, key);
        return true;
      }
      return false;
    }
  }
}
