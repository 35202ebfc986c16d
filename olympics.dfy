/**
 * The medal server: the entries of the data file are indexed by athlete,
 * sport and year once at start-up, and three handlers answer from the
 * index: an athlete's medals (overall and per year), the top athletes of a
 * sport and the top countries of a year.
 *
 * A handler is given its query parameters as strings ("" when absent, as
 * `Query().Get` returns them) and returns the response it would write.
 * Where a handler ranges over a Go map, the order the map hands out its
 * keys is a parameter: any enumeration of the keys.
 */
module Olympics {
  import opened GoBase
  import opened GoStrings

  datatype Entry = Entry(athlete: string, country: string, sport: string, year: int, gold: int, silver: int, bronze: int)

  datatype Medals = Medals(gold: int, silver: int, bronze: int) {
    /** The "total" the handlers report beside every count. */
    function Total(): int {
      gold + silver + bronze
    }
  }

  const NoMedals := Medals(0, 0, 0)

  function Add(a: Medals, b: Medals): Medals {
    Medals(a.gold + b.gold, a.silver + b.silver, a.bronze + b.bronze)
  }

  function MedalsOf(e: Entry): Medals {
    Medals(e.gold, e.silver, e.bronze)
  }

  function AthleteKey(e: Entry): string { e.athlete }
  function SportKey(e: Entry): string { e.sport }
  function YearKey(e: Entry): int { e.year }
  function CountryKey(e: Entry): string { e.country }

  predicate Distinct<K(==)>(ks: seq<K>) {
    forall i, j :: 0 <= i < j < |ks| ==> ks[i] != ks[j]
  }

  /** `order` lists every key of a Go map exactly once: an order `range` may take. */
  predicate Enumerates<K(==)>(order: seq<K>, keys: set<K>) {
    Distinct(order) && (forall i :: 0 <= i < |order| ==> order[i] in keys) && (forall k :: k in keys ==> k in order)
  }

  // ---------------------------------------------------------------------
  // The index built at start-up

  /** The entries whose key is k, in input order. */
  function Select<K(==)>(es: seq<Entry>, key: Entry -> K, k: K): seq<Entry> {
    if es == [] then []
    else Select(es[..|es| - 1], key, k) + (if key(es[|es| - 1]) == k then [es[|es| - 1]] else [])
  }

  /** What `m[key(e)] = append(m[key(e)], e)` over the entries leaves in m. */
  function Group<K(==)>(es: seq<Entry>, key: Entry -> K): map<K, seq<Entry>> {
    if es == [] then map[]
    else
      var m := Group(es[..|es| - 1], key);
      var e := es[|es| - 1];
      m[key(e) := (if key(e) in m then m[key(e)] else []) + [e]]
  }

  /** What the `athleteCountry` guard leaves: each athlete mapped to the country of their first entry. */
  function Countries(es: seq<Entry>): map<string, string> {
    if es == [] then map[]
    else
      var m := Countries(es[..|es| - 1]);
      var e := es[|es| - 1];
      if e.athlete in m then m else m[e.athlete := e.country]
  }

  datatype Index = Index(
    country: map<string, string>,
    byAthlete: map<string, seq<Entry>>,
    bySport: map<string, seq<Entry>>,
    byYear: map<int, seq<Entry>>)

  function IndexOf(es: seq<Entry>): Index {
    Index(Countries(es), Group(es, AthleteKey), Group(es, SportKey), Group(es, YearKey))
  }

  /** The indexing loop of `main`. */
  method BuildIndex(entries: seq<Entry>) returns (idx: Index)
    ensures idx == IndexOf(entries)
  {
    var country: map<string, string> := map[];
    var byAthlete: map<string, seq<Entry>> := map[];
    var bySport: map<string, seq<Entry>> := map[];
    var byYear: map<int, seq<Entry>> := map[];
    for i := 0 to |entries|
      invariant country == Countries(entries[..i])
      invariant byAthlete == Group(entries[..i], AthleteKey)
      invariant bySport == Group(entries[..i], SportKey)
      invariant byYear == Group(entries[..i], YearKey)
    {
      var e := entries[i];
      assert entries[..i + 1][..i] == entries[..i];
      if e.athlete !in country {
        country := country[e.athlete := e.country];
      }
      byAthlete := byAthlete[e.athlete := (if e.athlete in byAthlete then byAthlete[e.athlete] else []) + [e]];
      bySport := bySport[e.sport := (if e.sport in bySport then bySport[e.sport] else []) + [e]];
      byYear := byYear[e.year := (if e.year in byYear then byYear[e.year] else []) + [e]];
    }
    assert entries[..|entries|] == entries;
    idx := Index(country, byAthlete, bySport, byYear);
  }

  /** A key has a bucket exactly when some entry has it, and the bucket holds that key's entries in input order. */
  lemma {:induction false} GroupSelects<K>(es: seq<Entry>, key: Entry -> K, k: K)
    ensures k in Group(es, key) <==> exists i :: 0 <= i < |es| && key(es[i]) == k
    ensures k in Group(es, key) ==> Group(es, key)[k] == Select(es, key, k)
  {
    if es != [] {
      var front := es[..|es| - 1];
      GroupSelects(front, key, k);
      if key(es[|es| - 1]) != k && k !in Group(front, key) {
        forall i | 0 <= i < |es| ensures key(es[i]) != k {
          if i < |es| - 1 {
            assert es[i] == front[i];
          }
        }
      } else if k in Group(front, key) {
        var i :| 0 <= i < |front| && key(front[i]) == k;
        assert es[i] == front[i];
      } else {
        SelectEmpty(front, key, k);
      }
    }
  }

  /** Every entry in bucket k has key k, and an entry with key k is there as often as in the input: each entry lands in exactly one bucket. */
  lemma {:induction false} SelectExactly<K>(es: seq<Entry>, key: Entry -> K, k: K, e: Entry)
    ensures e in Select(es, key, k) ==> key(e) == k
    ensures key(e) == k ==> Count(Select(es, key, k), e) == Count(es, e)
  {
    if es != [] {
      var front, last := es[..|es| - 1], es[|es| - 1];
      SelectExactly(front, key, k, e);
      var tail := if key(last) == k then [last] else [];
      CountAppend(Select(front, key, k), tail, e);
      if tail != [] {
        assert tail[..0] == [];
      }
    }
  }

  /** Buckets keep input order: the bucket of a concatenation is the concatenation of the buckets. */
  lemma {:induction false} SelectAppend<K>(a: seq<Entry>, b: seq<Entry>, key: Entry -> K, k: K)
    ensures Select(a + b, key, k) == Select(a, key, k) + Select(b, key, k)
  {
    if b == [] {
      assert a + b == a;
    } else {
      assert (a + b)[..|a + b| - 1] == a + b[..|b| - 1];
      SelectAppend(a, b[..|b| - 1], key, k);
    }
  }

  /** An athlete's country is the one of their first entry. */
  lemma {:induction false} CountriesFirst(es: seq<Entry>, a: string)
    ensures a in Countries(es) <==> exists i :: 0 <= i < |es| && es[i].athlete == a
    ensures a in Countries(es) ==> exists i :: 0 <= i < |es| && es[i].athlete == a && Countries(es)[a] == es[i].country &&
                                              (forall j :: 0 <= j < i ==> es[j].athlete != a)
  {
    if es != [] {
      var front := es[..|es| - 1];
      CountriesFirst(front, a);
      if a in Countries(front) {
        var i :| 0 <= i < |front| && front[i].athlete == a && Countries(front)[a] == front[i].country &&
          forall j :: 0 <= j < i ==> front[j].athlete != a;
        assert es[i] == front[i];
      } else {
        forall j | 0 <= j < |es| - 1 ensures es[j].athlete != a {
          assert es[j] == front[j];
        }
      }
    }
  }

  // ---------------------------------------------------------------------
  // Medal totals

  /** The medals of a run of entries, added up. */
  function Sum(es: seq<Entry>): Medals {
    if es == [] then NoMedals else Add(Sum(es[..|es| - 1]), MedalsOf(es[|es| - 1]))
  }

  /** Go's lookup of a medal map: zero counts for a missing key. */
  function Get<K(==)>(m: map<K, Medals>, k: K): Medals {
    if k in m then m[k] else NoMedals
  }

  /** What the loops `c := m[key(e)]; c += medals; m[key(e)] = c` leave in m. */
  function TotalsBy<K(==)>(es: seq<Entry>, key: Entry -> K): map<K, Medals> {
    if es == [] then map[]
    else
      var m := TotalsBy(es[..|es| - 1], key);
      var e := es[|es| - 1];
      m[key(e) := Add(Get(m, key(e)), MedalsOf(e))]
  }

  /** The totals have the keys the buckets have, and each total is the sum of its bucket. */
  lemma {:induction false} TotalsSelect<K>(es: seq<Entry>, key: Entry -> K, k: K)
    ensures k in TotalsBy(es, key) <==> k in Group(es, key)
    ensures k in TotalsBy(es, key) ==> TotalsBy(es, key)[k] == Sum(Select(es, key, k))
  {
    if es != [] {
      var front := es[..|es| - 1];
      TotalsSelect(front, key, k);
      if k !in TotalsBy(front, key) {
        GroupSelects(front, key, k);
        SelectEmpty(front, key, k);
        var last := es[|es| - 1];
        if key(last) == k {
          assert Select(es, key, k) == [last];
          assert [last][..0] == [];
        }
      } else {
        var last, sel := es[|es| - 1], Select(front, key, k);
        if key(last) == k {
          assert (sel + [last])[..|sel|] == sel;
        } else {
          assert sel + [] == sel;
        }
      }
    }
  }

  lemma {:induction false} SelectEmpty<K>(es: seq<Entry>, key: Entry -> K, k: K)
    requires forall i :: 0 <= i < |es| ==> key(es[i]) != k
    ensures Select(es, key, k) == []
  {
    if es != [] {
      SelectEmpty(es[..|es| - 1], key, k);
    }
  }

  lemma SelectStep<K>(es: seq<Entry>, key: Entry -> K, k: K, i: nat)
    requires i < |es|
    ensures Select(es[..i + 1], key, k) == Select(es[..i], key, k) + (if key(es[i]) == k then [es[i]] else [])
  {
    assert es[..i + 1][..i] == es[..i];
  }

  lemma TotalsSnoc<K>(es: seq<Entry>, e: Entry, key: Entry -> K)
    ensures TotalsBy(es + [e], key) == TotalsBy(es, key)[key(e) := Add(Get(TotalsBy(es, key), key(e)), MedalsOf(e))]
  {
    assert (es + [e])[..|es|] == es;
  }

  /** The loops that total the medals of the entries per key (lines 136-142 and 238-244). */
  method CountMedals<K(==)>(es: seq<Entry>, key: Entry -> K) returns (m: map<K, Medals>)
    ensures m == TotalsBy(es, key)
  {
    m := map[];
    for i := 0 to |es|
      invariant m == TotalsBy(es[..i], key)
    {
      var e := es[i];
      assert es[..i + 1] == es[..i] + [e];
      TotalsSnoc(es[..i], e, key);
      var c := Get(m, key(e));
      c := Medals(c.gold + e.gold, c.silver + e.silver, c.bronze + e.bronze);
      m := m[key(e) := c];
    }
    assert es[..|es|] == es;
  }

  /** The loop of the athlete handler: the overall total and the totals per year, in one pass. */
  method AthleteMedals(ents: seq<Entry>) returns (total: Medals, byYear: map<int, Medals>)
    ensures total == Sum(ents) && byYear == TotalsBy(ents, YearKey)
  {
    total, byYear := NoMedals, map[];
    for i := 0 to |ents|
      invariant total == Sum(ents[..i]) && byYear == TotalsBy(ents[..i], YearKey)
    {
      var e := ents[i];
      assert ents[..i + 1][..i] == ents[..i];
      total := Medals(total.gold + e.gold, total.silver + e.silver, total.bronze + e.bronze);
      if e.year !in byYear {
        byYear := byYear[e.year := NoMedals];
      }
      var y := byYear[e.year];
      byYear := byYear[e.year := Medals(y.gold + e.gold, y.silver + e.silver, y.bronze + e.bronze)];
    }
    assert ents[..|ents|] == ents;
  }

  /** The inner loop of the sport handler: one athlete's totals per year, skipping the other athletes' entries. */
  method AthleteYears(ents: seq<Entry>, name: string) returns (byYear: map<int, Medals>)
    ensures byYear == TotalsBy(Select(ents, AthleteKey, name), YearKey)
  {
    byYear := map[];
    ghost var own: seq<Entry> := [];
    for i := 0 to |ents|
      invariant own == Select(ents[..i], AthleteKey, name)
      invariant byYear == TotalsBy(own, YearKey)
    {
      var e := ents[i];
      SelectStep(ents, AthleteKey, name, i);
      if e.athlete != name {
        assert own + [] == own;
        continue;
      }
      TotalsSnoc(own, e, YearKey);
      var m := Get(byYear, e.year);
      byYear := byYear[e.year := Add(m, MedalsOf(e))];
      own := own + [e];
    }
    assert ents[..|ents|] == ents;
  }

  /** The medals of the keys in ks, added up. */
  function SumAt<K(==)>(m: map<K, Medals>, ks: seq<K>): Medals {
    if ks == [] then NoMedals else Add(SumAt(m, ks[..|ks| - 1]), Get(m, ks[|ks| - 1]))
  }

  lemma {:induction false} SumAtSame<K>(m: map<K, Medals>, m': map<K, Medals>, ks: seq<K>)
    requires forall i :: 0 <= i < |ks| ==> Get(m, ks[i]) == Get(m', ks[i])
    ensures SumAt(m, ks) == SumAt(m', ks)
  {
    if ks != [] {
      SumAtSame(m, m', ks[..|ks| - 1]);
    }
  }

  /** Adding d at one key that ks lists once adds d to the sum over ks. */
  lemma {:induction false} SumAtUpdate<K>(m: map<K, Medals>, ks: seq<K>, k: K, d: Medals)
    requires Distinct(ks) && k in ks
    ensures SumAt(m[k := Add(Get(m, k), d)], ks) == Add(SumAt(m, ks), d)
  {
    var m' := m[k := Add(Get(m, k), d)];
    var front, last := ks[..|ks| - 1], ks[|ks| - 1];
    assert ks == front + [last];
    if last == k {
      forall i | 0 <= i < |front| ensures Get(m, front[i]) == Get(m', front[i]) {
        assert front[i] == ks[i] != ks[|ks| - 1];
      }
      SumAtSame(m, m', front);
    } else {
      assert k in front;
      assert Distinct(front) by {
        forall i, j | 0 <= i < j < |front| ensures front[i] != front[j] {
          assert front[i] == ks[i] && front[j] == ks[j];
        }
      }
      SumAtUpdate(m, front, k, d);
    }
  }

  /**
   * The totals per key add up to the overall total: for the medals per
   * year, the breakdown of `medals_by_year` sums to `medals`.
   */
  lemma {:induction false} BreakdownSums<K>(es: seq<Entry>, key: Entry -> K, ks: seq<K>)
    requires Distinct(ks) && forall i :: 0 <= i < |es| ==> key(es[i]) in ks
    ensures SumAt(TotalsBy(es, key), ks) == Sum(es)
  {
    if es == [] {
      SumAtSame(map[], TotalsBy(es, key), ks);
      SumAtNone(ks);
    } else {
      var front, e := es[..|es| - 1], es[|es| - 1];
      assert forall i :: 0 <= i < |front| ==> front[i] == es[i];
      BreakdownSums(front, key, ks);
      SumAtUpdate(TotalsBy(front, key), ks, key(e), MedalsOf(e));
    }
  }

  lemma {:induction false} SumAtNone<K>(ks: seq<K>)
    ensures SumAt(map[], ks) == NoMedals
  {
    if ks != [] {
      SumAtNone(ks[..|ks| - 1]);
    }
  }

  // ---------------------------------------------------------------------
  // Ranking

  /** A row of a ranking: an athlete's or a country's name and medal counts. */
  datatype Rec = Rec(name: string, medals: Medals)

  /** The less function given to `sort.Slice`: more gold first, then more silver, then more bronze, then the name. */
  predicate Before(a: Rec, b: Rec) {
    if a.medals.gold != b.medals.gold then a.medals.gold > b.medals.gold
    else if a.medals.silver != b.medals.silver then a.medals.silver > b.medals.silver
    else if a.medals.bronze != b.medals.bronze then a.medals.bronze > b.medals.bronze
    else Less(a.name, b.name)
  }

  lemma BeforeIrreflexive(a: Rec)
    ensures !Before(a, a)
  {
    LessIrreflexive(a.name);
  }

  lemma BeforeTransitive(a: Rec, b: Rec, c: Rec)
    requires Before(a, b) && Before(b, c)
    ensures Before(a, c)
  {
    if a.medals == b.medals && b.medals == c.medals {
      LessTransitive(a.name, b.name, c.name);
    }
  }

  /** Of two rows with different names, one comes before the other: a strict total order. */
  lemma BeforeTotal(a: Rec, b: Rec)
    requires a.name != b.name
    ensures Before(a, b) || Before(b, a)
  {
    LessTotal(a.name, b.name);
  }

  lemma BeforeAsymmetric(a: Rec, b: Rec)
    requires Before(a, b)
    ensures !Before(b, a)
  {
    if Before(b, a) {
      BeforeTransitive(a, b, a);
      BeforeIrreflexive(a);
    }
  }

  predicate Ranked(s: seq<Rec>) {
    forall i, j :: 0 <= i < j < |s| ==> Before(s[i], s[j])
  }

  predicate DistinctNames(s: seq<Rec>) {
    forall i, j :: 0 <= i < j < |s| ==> s[i].name != s[j].name
  }

  /** x comes before the head of a ranked list, hence before all of it. */
  lemma BeforeAll(x: Rec, s: seq<Rec>)
    requires Ranked(s) && s != [] && Before(x, s[0])
    ensures forall j :: 0 <= j < |s| ==> Before(x, s[j])
  {
    forall j | 0 < j < |s| ensures Before(x, s[j]) {
      BeforeTransitive(x, s[0], s[j]);
    }
  }

  /** The head of a ranked list comes before its other rows and before any x it comes before. */
  lemma HeadBefore(h: Rec, x: Rec, t: seq<Rec>, rest: seq<Rec>)
    requires Before(h, x) && (forall j :: 0 <= j < |rest| ==> Before(h, rest[j]))
    requires multiset(t) == multiset(rest) + multiset{x}
    ensures forall j :: 0 <= j < |t| ==> Before(h, t[j])
  {
    forall j | 0 <= j < |t| ensures Before(h, t[j]) {
      assert t[j] in multiset(rest) + multiset{x};
      if t[j] != x {
        assert t[j] in rest;
      }
    }
  }

  lemma ConsRanked(h: Rec, t: seq<Rec>)
    requires Ranked(t) && forall j :: 0 <= j < |t| ==> Before(h, t[j])
    ensures Ranked([h] + t)
  {
    var r := [h] + t;
    forall i, j | 0 <= i < j < |r| ensures Before(r[i], r[j]) {
      if i > 0 {
        assert r[i] == t[i - 1] && r[j] == t[j - 1];
      }
    }
  }

  function Insert(x: Rec, s: seq<Rec>): (r: seq<Rec>)
    requires Ranked(s) && forall i :: 0 <= i < |s| ==> s[i].name != x.name
    ensures Ranked(r) && multiset(r) == multiset(s) + multiset{x} && |r| == |s| + 1
  {
    if s == [] then [x]
    else if Before(x, s[0]) then
      BeforeAll(x, s);
      ConsRanked(x, s);
      [x] + s
    else
      BeforeTotal(x, s[0]);
      var t := Insert(x, s[1..]);
      assert s == [s[0]] + s[1..];
      HeadBefore(s[0], x, t, s[1..]);
      ConsRanked(s[0], t);
      [s[0]] + t
  }

  /** The rows of a permutation of the tail have names other than the head's. */
  lemma OtherNames(s: seq<Rec>, t: seq<Rec>)
    requires DistinctNames(s) && s != [] && multiset(t) == multiset(s[1..])
    ensures forall i :: 0 <= i < |t| ==> t[i].name != s[0].name
  {
    forall i | 0 <= i < |t| ensures t[i].name != s[0].name {
      assert t[i] in multiset(s[1..]);
      var j :| 0 <= j < |s[1..]| && s[1..][j] == t[i];
      assert s[j + 1] == t[i];
    }
  }

  /** `sort.Slice` under Before, as an insertion sort; RankedUnique shows any correct sort gives the same list. */
  function Rank(s: seq<Rec>): (r: seq<Rec>)
    requires DistinctNames(s)
    ensures Ranked(r) && multiset(r) == multiset(s) && |r| == |s|
  {
    if s == [] then []
    else
      assert s == [s[0]] + s[1..];
      var t := Rank(s[1..]);
      OtherNames(s, t);
      Insert(s[0], t)
  }

  /** Ranking keeps exactly the rows it is given. */
  lemma RankMembers(s: seq<Rec>)
    requires DistinctNames(s)
    ensures forall x :: x in Rank(s) <==> x in s
  {
    forall x ensures x in Rank(s) <==> x in s {
      assert x in Rank(s) <==> x in multiset(Rank(s));
      assert x in s <==> x in multiset(s);
    }
  }

  lemma EmptyIffEmpty(a: seq<Rec>, b: seq<Rec>)
    requires forall x :: x in a <==> x in b
    ensures a == [] <==> b == []
  {
    if a != [] {
      assert a[0] in a;
    }
    if b != [] {
      assert b[0] in b;
    }
  }

  /** Two ranked lists of the same rows are the same list: the order does not depend on how the rows came. */
  lemma {:induction false} RankedUnique(a: seq<Rec>, b: seq<Rec>)
    requires Ranked(a) && Ranked(b) && forall x :: x in a <==> x in b
    ensures a == b
  {
    EmptyIffEmpty(a, b);
    if a != [] && b != [] {
      assert a[0] in a && b[0] in b;
      assert a[0] in b && b[0] in a;
      if a[0] != b[0] {
        var k :| 0 <= k < |b| && b[k] == a[0];
        var m :| 0 <= m < |a| && a[m] == b[0];
        BeforeAsymmetric(b[0], a[0]);
        assert false;
      }
      forall x ensures x in a[1..] <==> x in b[1..] {
        if x in a[1..] {
          var i :| 0 <= i < |a[1..]| && a[1..][i] == x;
          assert Before(a[0], a[i + 1]);
          BeforeIrreflexive(x);
          assert x in b && x != b[0];
          assert b == [b[0]] + b[1..];
        }
        if x in b[1..] {
          var i :| 0 <= i < |b[1..]| && b[1..][i] == x;
          assert Before(b[0], b[i + 1]);
          BeforeIrreflexive(x);
          assert x in a && x != a[0];
          assert a == [a[0]] + a[1..];
        }
      }
      RankedUnique(a[1..], b[1..]);
      assert a == [a[0]] + a[1..] && b == [b[0]] + b[1..];
    }
  }

  /** The list the handlers build from a totals map, ranging over it in the given order. */
  function RecordsOf(m: map<string, Medals>, order: seq<string>): (r: seq<Rec>)
    requires forall i :: 0 <= i < |order| ==> order[i] in m
    ensures |r| == |order|
  {
    seq(|order|, i requires 0 <= i < |order| => Rec(order[i], m[order[i]]))
  }

  /** The list-building loop of the ranking handlers. */
  method Records(m: map<string, Medals>, order: seq<string>) returns (list: seq<Rec>)
    requires forall i :: 0 <= i < |order| ==> order[i] in m
    ensures list == RecordsOf(m, order)
  {
    list := [];
    for i := 0 to |order|
      invariant list == RecordsOf(m, order[..i])
    {
      list := list + [Rec(order[i], m[order[i]])];
    }
    assert order[..|order|] == order;
  }

  /** Ranging over the map lists each key once with its totals, and nothing else. */
  lemma RecordsOfMap(m: map<string, Medals>, order: seq<string>)
    requires Enumerates(order, m.Keys)
    ensures DistinctNames(RecordsOf(m, order))
    ensures forall x :: x in RecordsOf(m, order) <==> x.name in m && x.medals == m[x.name]
  {
    var r := RecordsOf(m, order);
    forall x: Rec | x.name in m && x.medals == m[x.name] ensures x in r {
      var i :| 0 <= i < |order| && order[i] == x.name;
      assert r[i] == x;
    }
  }

  function Clamp(limit: int, n: nat): nat {
    if limit < 0 then 0 else if limit > n then n else limit
  }

  /** The rows a ranking handler returns: the ranked list cut to the clamped limit. */
  function Leaders(recs: seq<Rec>, limit: int): seq<Rec>
    requires DistinctNames(recs)
  {
    Rank(recs)[..Clamp(limit, |recs|)]
  }

  /**
   * The leaders are ranked rows of the list: exactly `limit` of them when
   * the list has that many, none for a negative limit, all rows when the
   * limit reaches the length, and each of them comes before every row
   * left out.
   */
  lemma LeadersTop(recs: seq<Rec>, limit: int)
    requires DistinctNames(recs)
    ensures Ranked(Leaders(recs, limit))
    ensures |Leaders(recs, limit)| <= if limit < 0 then 0 else limit
    ensures 0 <= limit <= |recs| ==> |Leaders(recs, limit)| == limit
    ensures limit >= |recs| ==> |Leaders(recs, limit)| == |recs|
    ensures forall x :: x in Leaders(recs, limit) ==> x in recs
    ensures forall x, y :: x in recs && x !in Leaders(recs, limit) && y in Leaders(recs, limit) ==> Before(y, x)
  {
    var r := Rank(recs);
    var c := Clamp(limit, |recs|);
    RankMembers(recs);
    forall x, y | x in recs && x !in r[..c] && y in r[..c] ensures Before(y, x) {
      assert x in r;
      var i :| 0 <= i < |r| && r[i] == x;
      var j :| 0 <= j < c && r[..c][j] == y;
      assert i >= c;
    }
  }

  /** Whatever order Go's map hands out the keys in, the ranking handlers return the same rows. */
  lemma OrderIrrelevant(m: map<string, Medals>, o1: seq<string>, o2: seq<string>, limit: int)
    requires Enumerates(o1, m.Keys) && Enumerates(o2, m.Keys)
    ensures DistinctNames(RecordsOf(m, o1)) && DistinctNames(RecordsOf(m, o2))
    ensures Leaders(RecordsOf(m, o1), limit) == Leaders(RecordsOf(m, o2), limit)
  {
    var r1, r2 := RecordsOf(m, o1), RecordsOf(m, o2);
    RecordsOfMap(m, o1);
    RecordsOfMap(m, o2);
    RankMembers(r1);
    RankMembers(r2);
    RankedUnique(Rank(r1), Rank(r2));
  }

  // ---------------------------------------------------------------------
  // The handlers

  /** The row of an athlete in `/athlete-info` and `/top-athletes-in-sport`. */
  datatype AthleteRow = AthleteRow(athlete: string, country: string, medals: Medals, byYear: map<int, Medals>)

  datatype Response =
    | BadRequest(message: string)
    | NotFound(message: string)
    | AthleteInfo(info: AthleteRow)
    | TopAthletes(rows: seq<AthleteRow>)
    | TopCountries(ranking: seq<Rec>)

  /** The `limit` parameter: 3 when absent, else `strconv.Atoi`'s value, None for its error. */
  function LimitOf(param: string): (r: Option<int>)
    ensures param == "" ==> r == Some(3)
    ensures param != "" ==> r == Atoi(param)
  {
    if param == "" then Some(3) else Atoi(param)
  }

  /** `athleteCountry[name]`: "" for a name the map lacks. */
  function CountryOf(idx: Index, name: string): string {
    if name in idx.country then idx.country[name] else ""
  }

  /** `/athlete-info?name=…` */
  method AthleteInfoHandler(idx: Index, name: string) returns (r: Response)
    ensures name == "" ==> r == BadRequest("name is required")
    ensures name != "" && name !in idx.byAthlete ==> r == NotFound("athlete " + name + " not found")
    ensures name != "" && name in idx.byAthlete ==>
      r == AthleteInfo(AthleteRow(name, CountryOf(idx, name), Sum(idx.byAthlete[name]), TotalsBy(idx.byAthlete[name], YearKey)))
  {
    if name == "" {
      return BadRequest("name is required");
    }
    if name !in idx.byAthlete {
      return NotFound("athlete " + name + " not found");
    }
    var total, byYear := AthleteMedals(idx.byAthlete[name]);
    r := AthleteInfo(AthleteRow(name, CountryOf(idx, name), total, byYear));
  }

  /** An athlete's row in a sport's ranking: the ranked totals and the per-year totals of their entries in the sport. */
  function SportRow(idx: Index, ents: seq<Entry>, rec: Rec): AthleteRow {
    AthleteRow(rec.name, CountryOf(idx, rec.name), rec.medals, TotalsBy(Select(ents, AthleteKey, rec.name), YearKey))
  }

  /** The result loop of the sport handler. */
  method SportRows(idx: Index, ents: seq<Entry>, top: seq<Rec>) returns (rows: seq<AthleteRow>)
    ensures |rows| == |top| && forall i :: 0 <= i < |top| ==> rows[i] == SportRow(idx, ents, top[i])
  {
    rows := [];
    for i := 0 to |top|
      invariant |rows| == i && forall k :: 0 <= k < i ==> rows[k] == SportRow(idx, ents, top[k])
    {
      var rec := top[i];
      var byYear := AthleteYears(ents, rec.name);
      rows := rows + [AthleteRow(rec.name, CountryOf(idx, rec.name), rec.medals, byYear)];
    }
  }

  /** `/top-athletes-in-sport?sport=…&limit=…`, ranging over the athletes' totals in `order`. */
  method TopAthletesHandler(idx: Index, sport: string, limitParam: string, order: seq<string>) returns (r: Response)
    requires sport != "" && sport in idx.bySport ==> Enumerates(order, TotalsBy(idx.bySport[sport], AthleteKey).Keys)
    ensures sport == "" ==> r == BadRequest("sport is required")
    ensures sport != "" && sport !in idx.bySport ==> r == NotFound("sport '" + sport + "' not found")
    ensures sport != "" && sport in idx.bySport && LimitOf(limitParam).None? ==> r == BadRequest("invalid limit")
    ensures sport != "" && sport in idx.bySport && LimitOf(limitParam).Some? ==>
      var totals := TotalsBy(idx.bySport[sport], AthleteKey);
      DistinctNames(RecordsOf(totals, order)) &&
      var top := Leaders(RecordsOf(totals, order), LimitOf(limitParam).value);
      r.TopAthletes? && |r.rows| == |top| &&
      forall i :: 0 <= i < |top| ==> r.rows[i] == SportRow(idx, idx.bySport[sport], top[i])
  {
    if sport == "" {
      return BadRequest("sport is required");
    }
    if sport !in idx.bySport {
      return NotFound("sport '" + sport + "' not found");
    }
    var ents := idx.bySport[sport];
    var limit := 3;
    if limitParam != "" {
      var n := Atoi(limitParam);
      if n.None? {
        return BadRequest("invalid limit");
      }
      limit := n.value;
    }
    var totals := CountMedals(ents, AthleteKey);
    var list := Records(totals, order);
    RecordsOfMap(totals, order);
    var ranked := Rank(list);
    if limit < 0 {
      limit := 0;
    }
    if limit > |list| {
      limit := |list|;
    }
    var rows := SportRows(idx, ents, ranked[..limit]);
    r := TopAthletes(rows);
  }

  /** `/top-countries-in-year?year=…&limit=…`, ranging over the countries' totals in `order`. */
  method TopCountriesHandler(idx: Index, yearParam: string, limitParam: string, order: seq<string>) returns (r: Response)
    requires Atoi(yearParam).Some? && Atoi(yearParam).value in idx.byYear ==>
      Enumerates(order, TotalsBy(idx.byYear[Atoi(yearParam).value], CountryKey).Keys)
    ensures yearParam == "" ==> r == BadRequest("year is required")
    ensures yearParam != "" && Atoi(yearParam).None? ==> r == BadRequest("invalid year")
    ensures Atoi(yearParam).Some? && Atoi(yearParam).value !in idx.byYear ==>
      r == NotFound("year " + Itoa(Atoi(yearParam).value) + " not found")
    ensures Atoi(yearParam).Some? && Atoi(yearParam).value in idx.byYear && LimitOf(limitParam).None? ==>
      r == BadRequest("invalid limit")
    ensures Atoi(yearParam).Some? && Atoi(yearParam).value in idx.byYear && LimitOf(limitParam).Some? ==>
      var totals := TotalsBy(idx.byYear[Atoi(yearParam).value], CountryKey);
      DistinctNames(RecordsOf(totals, order)) &&
      r == TopCountries(Leaders(RecordsOf(totals, order), LimitOf(limitParam).value))
  {
    if yearParam == "" {
      return BadRequest("year is required");
    }
    var y := Atoi(yearParam);
    if y.None? {
      return BadRequest("invalid year");
    }
    if y.value !in idx.byYear {
      return NotFound("year " + Itoa(y.value) + " not found");
    }
    var ents := idx.byYear[y.value];
    var limit := 3;
    if limitParam != "" {
      var n := Atoi(limitParam);
      if n.None? {
        return BadRequest("invalid limit");
      }
      limit := n.value;
    }
    var totals := CountMedals(ents, CountryKey);
    var list := Records(totals, order);
    RecordsOfMap(totals, order);
    var ranked := Rank(list);
    if limit < 0 {
      limit := 0;
    }
    if limit > |list| {
      limit := |list|;
    }
    r := TopCountries(ranked[..limit]);
  }
}
