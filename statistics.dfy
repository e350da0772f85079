/**
 * `generate_statistics`: counts by year and by provider, the share of
 * records that list skills, the number of distinct skills and the most
 * common one.
 */
module Statistics {
  import opened Wrappers
  import opened Search
  import opened Extraction

  datatype Stats = Stats(
    total: nat,
    byYear: map<Option<string>, nat>,
    byProvider: map<string, nat>,
    withSkills: nat,
    skillsRatio: real,
    uniqueSkills: nat,
    mostCommonSkill: string,
    completionTrend: map<Option<string>, nat>)

  /**
   * A `Counter` over `keys`, built left to right: each key maps to the
   * number of times it occurs.
   */
  function CountKeys<K>(keys: seq<K>): (r: map<K, nat>)
  {
    if keys == [] then map[]
    else
      var m := CountKeys(keys[..|keys| - 1]);
      var k := keys[|keys| - 1];
      m[k := (if k in m then m[k] else 0) + 1]
  }

  /** A key is counted exactly when it occurs, and its count is its number of occurrences. */
  lemma {:induction false} CountKeysCounts<K>(keys: seq<K>, k: K)
    ensures k in CountKeys(keys) <==> k in keys
    ensures k in CountKeys(keys) ==> CountKeys(keys)[k] == multiset(keys)[k]
  {
    if keys != [] {
      var init := keys[..|keys| - 1];
      CountKeysCounts(init, k);
      assert keys == init + [keys[|keys| - 1]];
    }
  }

  /** The sum of a map's values. */
  ghost function SumValues<K>(m: map<K, nat>): nat
    decreases |m|
  {
    if m == map[] then 0
    else
      var k :| k in m;
      m[k] + SumValues(m - {k})
  }

  lemma {:induction false} SumValuesRemove<K>(m: map<K, nat>, k: K)
    requires k in m
    ensures SumValues(m) == m[k] + SumValues(m - {k})
    decreases |m|
  {
    var j :| j in m && SumValues(m) == m[j] + SumValues(m - {j});
    if j != k {
      SumValuesRemove(m - {j}, k);
      SumValuesRemove(m - {k}, j);
      assert m - {j} - {k} == m - {k} - {j};
    }
  }

  /** The counts of a `Counter` add up to the number of keys counted. */
  lemma {:induction false} CountKeysTotal<K>(keys: seq<K>)
    ensures SumValues(CountKeys(keys)) == |keys|
  {
    if keys != [] {
      var init := keys[..|keys| - 1];
      var k := keys[|keys| - 1];
      var m := CountKeys(init);
      CountKeysTotal(init);
      var m' := m[k := (if k in m then m[k] else 0) + 1];
      SumValuesRemove(m', k);
      assert m' - {k} == m - {k};
      if k in m {
        SumValuesRemove(m, k);
      } else {
        assert m - {k} == m;
      }
    }
  }

  function Years(records: seq<Record>): (r: seq<Option<string>>)
    ensures |r| == |records| && forall i :: 0 <= i < |records| ==> r[i] == records[i].year
  {
    seq(|records|, i requires 0 <= i < |records| => records[i].year)
  }

  function ProviderIds(records: seq<Record>): (r: seq<string>)
    ensures |r| == |records| && forall i :: 0 <= i < |records| ==> r[i] == records[i].provider
  {
    seq(|records|, i requires 0 <= i < |records| => records[i].provider)
  }

  /** For each record, whether it has skills. */
  function HasSkills(records: seq<Record>): (r: seq<bool>)
    ensures |r| == |records| && forall i :: 0 <= i < |records| ==> r[i] == (records[i].skills != "")
  {
    seq(|records|, i requires 0 <= i < |records| => records[i].skills != "")
  }

  /** `sum(1 for m in metadata_list if m['skills'])`: how many records have skills. */
  function WithSkills(records: seq<Record>): (r: nat)
    ensures r <= |records|
    ensures r == 0 <==> forall i :: 0 <= i < |records| ==> records[i].skills == ""
  {
    if records == [] then 0
    else (if records[0].skills != "" then 1 else 0) + WithSkills(records[1..])
  }

  /** The count is the number of records with skills. */
  lemma {:induction false} WithSkillsCounts(records: seq<Record>)
    ensures WithSkills(records) == multiset(HasSkills(records))[true]
    decreases |records|
  {
    if records != [] {
      assert HasSkills(records) == [records[0].skills != ""] + HasSkills(records[1..]);
      WithSkillsCounts(records[1..]);
    }
  }

  /** Counting is additive over concatenated record lists. */
  lemma WithSkillsAppend(a: seq<Record>, b: seq<Record>)
    ensures WithSkills(a + b) == WithSkills(a) + WithSkills(b)
  {
    var f := HasSkills(a + b);
    assert f == HasSkills(a) + HasSkills(b);
    assert multiset(f) == multiset(HasSkills(a)) + multiset(HasSkills(b));
    WithSkillsCounts(a + b);
    WithSkillsCounts(a);
    WithSkillsCounts(b);
  }

  /** Every skill of every record that has skills, in order: `m['skills'].split(', ')`. */
  function AllSkills(records: seq<Record>): (r: seq<string>)
    ensures r == [] <==> WithSkills(records) == 0
  {
    if records == [] then []
    else (if records[0].skills != "" then Split(records[0].skills, ", ") else []) + AllSkills(records[1..])
  }

  /**
   * `Counter(keys).most_common(1)[0][0]`: a most frequent key; among equally
   * frequent keys, the one seen first. Scans from i, `first` being the
   * position where the best key so far first occurs.
   */
  function MostCommonFrom<K(==)>(keys: seq<K>, i: nat, first: nat): (r: nat)
    requires first < i <= |keys|
    requires forall j :: 0 <= j < i ==> multiset(keys)[keys[j]] <= multiset(keys)[keys[first]]
    requires forall j :: 0 <= j < i && multiset(keys)[keys[j]] == multiset(keys)[keys[first]] ==> first <= j
    decreases |keys| - i
    ensures r < |keys|
    ensures forall j :: 0 <= j < |keys| ==> multiset(keys)[keys[j]] <= multiset(keys)[keys[r]]
    ensures forall j :: 0 <= j < |keys| && multiset(keys)[keys[j]] == multiset(keys)[keys[r]] ==> r <= j
  {
    if i == |keys| then first
    else if multiset(keys)[keys[i]] > multiset(keys)[keys[first]] then MostCommonFrom(keys, i + 1, i)
    else MostCommonFrom(keys, i + 1, first)
  }

  function MostCommon<K(==)>(keys: seq<K>): (r: Option<K>)
    ensures r.None? <==> keys == []
    ensures r.Some? ==> r.value in keys && forall k :: k in keys ==> multiset(keys)[k] <= multiset(keys)[r.value]
    ensures r.Some? ==> forall j :: 0 <= j < |keys| && multiset(keys)[keys[j]] == multiset(keys)[r.value] ==> r.value in keys[..j + 1]
  {
    if keys == [] then None
    else
      var f := MostCommonFrom(keys, 1, 0);
      Some(keys[f])
  }

  /** `most_common_skill`, or 'N/A' when no record has skills. */
  function MostCommonSkill(records: seq<Record>): (r: string)
    ensures WithSkills(records) == 0 ==> r == "N/A"
    ensures WithSkills(records) > 0 ==>
              var skills := AllSkills(records);
              && r in skills
              && (forall k :: k in skills ==> multiset(skills)[k] <= multiset(skills)[r])
              && (forall j :: 0 <= j < |skills| && multiset(skills)[skills[j]] == multiset(skills)[r] ==> r in skills[..j + 1])
  {
    match MostCommon(AllSkills(records))
    case None => "N/A"
    case Some(s) => s
  }

  /** `{m['year']: sum(1 for x in metadata_list if x['year'] == m['year']) for m in metadata_list}` */
  function CompletionTrend(records: seq<Record>): map<Option<string>, nat>
  {
    var ys := Years(records);
    map y | y in ys :: multiset(ys)[y]
  }

  /** `completion_trend` is the same map as `by_year`, the year counter. */
  lemma TrendIsByYear(records: seq<Record>)
    ensures CompletionTrend(records) == CountKeys(Years(records))
  {
    var ys := Years(records);
    var trend := CompletionTrend(records);
    var counts := CountKeys(ys);
    forall k ensures (k in trend <==> k in counts) && (k in trend ==> trend[k] == counts[k]) {
      CountKeysCounts(ys, k);
    }
    assert trend.Keys == counts.Keys;
  }

  /** `avg_skills_per_course`: the share of records with skills. */
  function SkillsRatio(records: seq<Record>): (r: real)
    requires records != []
    ensures 0.0 <= r <= 1.0
    ensures r * |records| as real == WithSkills(records) as real
  {
    var n := WithSkills(records);
    RatioOfCounts(n, |records|);
    n as real / |records| as real
  }

  lemma RatioOfCounts(n: nat, t: nat)
    requires n <= t && t > 0
    ensures 0.0 <= n as real / t as real <= 1.0 && n as real / t as real * t as real == n as real
  {
    RatioBounds(n as real, t as real);
  }

  lemma RatioBounds(n: real, t: real)
    requires 0.0 <= n <= t && t > 0.0
    ensures 0.0 <= n / t <= 1.0 && n / t * t == n
  {
  }

  /** `unique_skills`: the number of distinct skills; none exactly when no record has skills. */
  function UniqueSkills(records: seq<Record>): (r: nat)
    ensures r <= |AllSkills(records)|
    ensures r == 0 <==> WithSkills(records) == 0
  {
    var skills := AllSkills(records);
    var unique := set s | s in skills;
    assert skills != [] ==> skills[0] in unique;
    DistinctBound(skills);
    |unique|
  }

  lemma {:induction false} DistinctBound<T>(s: seq<T>)
    ensures |set x | x in s| <= |s|
  {
    if s != [] {
      DistinctBound(s[1..]);
      assert (set x | x in s) == {s[0]} + (set x | x in s[1..]);
    }
  }

  /** The whole statistics dict; None stands for the `{}` of an empty list. */
  function StatisticsOf(records: seq<Record>): (r: Option<Stats>)
    ensures r.None? <==> records == []
    ensures r.Some? ==> r.value.total == |records| && r.value.withSkills <= r.value.total
    ensures r.Some? ==> (r.value.uniqueSkills == 0 <==> r.value.withSkills == 0)
  {
    if records == [] then None
    else
      Some(Stats(
        |records|,
        CountKeys(Years(records)),
        CountKeys(ProviderIds(records)),
        WithSkills(records),
        SkillsRatio(records),
        UniqueSkills(records),
        MostCommonSkill(records),
        CompletionTrend(records)))
  }

  /** The year and provider counts each add up to the number of records. */
  lemma CountsAddUp(records: seq<Record>)
    requires records != []
    ensures SumValues(StatisticsOf(records).value.byYear) == StatisticsOf(records).value.total
    ensures SumValues(StatisticsOf(records).value.byProvider) == StatisticsOf(records).value.total
  {
    CountKeysTotal(Years(records));
    CountKeysTotal(ProviderIds(records));
  }

  /**
   * `generate_statistics`: comprehensions for most fields and a loop that
   * fills `by_year` in place.
   */
  method GenerateStatistics(records: seq<Record>) returns (r: Option<Stats>)
    ensures r == StatisticsOf(records)
  {
    if records == [] {
      return None;
    }
    var years := Years(records);
    var byYear: map<Option<string>, nat> := map[];
    var i := 0;
    while i < |records|
      invariant 0 <= i <= |records|
      invariant byYear == CountKeys(years[..i])
    {
      var y := records[i].year;
      assert years[..i + 1][..i] == years[..i];
      byYear := byYear[y := (if y in byYear then byYear[y] else 0) + 1];
      i := i + 1;
    }
    assert years[..i] == years;
    r := Some(Stats(
      |records|,
      byYear,
      CountKeys(ProviderIds(records)),
      WithSkills(records),
      SkillsRatio(records),
      UniqueSkills(records),
      MostCommonSkill(records),
      CompletionTrend(records)));
  }
}
