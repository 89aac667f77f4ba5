/** The counting, splitting and scoring helpers of the induction
    (`count_results`, `most_common`, `entropy`, `partition_by_attribute`,
    `entropy_gain`; src/lib.rs:157-218). `f64` is replaced by exact reals and
    the natural logarithm by a parameter `ln`; hash maps are iterated in an
    order nothing is promised about. */
module Statistics {
  import opened Collections
  import opened Dataset

  // ---------------------------------------------------------------------
  // Label counts

  /** How many rows carry `outcome`. */
  function Count(rows: seq<Row>, outcome: string): (c: nat)
    ensures c <= |rows|
  {
    if rows == [] then 0
    else Count(rows[..|rows| - 1], outcome) + (if rows[|rows| - 1].result == outcome then 1 else 0)
  }

  /** The labels that occur in `rows`. */
  function Labels(rows: seq<Row>): set<string>
  {
    if rows == [] then {} else Labels(rows[..|rows| - 1]) + {rows[|rows| - 1].result}
  }

  /** A label occurs exactly when some row carries it, exactly when its count
      is positive. */
  lemma {:induction false} LabelsCounted(rows: seq<Row>)
    ensures forall l :: l in Labels(rows) <==> Count(rows, l) > 0
    ensures forall i :: 0 <= i < |rows| ==> rows[i].result in Labels(rows)
    ensures forall l :: l in Labels(rows) ==> exists i :: 0 <= i < |rows| && rows[i].result == l
  {
    if rows != [] {
      var p := rows[..|rows| - 1];
      LabelsCounted(p);
      forall l | l in Labels(rows)
        ensures exists i :: 0 <= i < |rows| && rows[i].result == l
      {
        if l in Labels(p) {
          var i :| 0 <= i < |p| && p[i].result == l;
          assert rows[i] == p[i];
        } else {
          assert rows[|rows| - 1].result == l;
        }
      }
      forall i | 0 <= i < |p|
        ensures rows[i].result in Labels(rows)
      {
        assert rows[i] == p[i];
      }
    }
  }

  /** One more row adds one to its own label's count and leaves the others. */
  lemma CountStep(rows: seq<Row>, i: nat)
    requires i < |rows|
    ensures forall l :: Count(rows[..i + 1], l) == Count(rows[..i], l) + (if rows[i].result == l then 1 else 0)
    ensures Labels(rows[..i + 1]) == Labels(rows[..i]) + {rows[i].result}
  {
    assert rows[..i + 1][..i] == rows[..i];
  }

  /** `count_results` (src/lib.rs:170-177): a histogram whose keys are exactly
      the labels present and whose values are their counts. */
  method CountResults(rows: seq<Row>) returns (counter: map<string, nat>)
    ensures counter.Keys == Labels(rows)
    ensures forall l :: l in counter ==> counter[l] == Count(rows, l)
  {
    counter := map[];
    var i := 0;
    while i < |rows|
      invariant i <= |rows|
      invariant counter.Keys == Labels(rows[..i])
      invariant forall l :: Count(rows[..i], l) == if l in counter then counter[l] else 0
    {
      CountStep(rows, i);
      var before := if rows[i].result in counter then counter[rows[i].result] else 0;
      counter := counter[rows[i].result := before + 1];
      i := i + 1;
    }
    assert rows[..i] == rows;
  }

  
  /** Summed over any set that holds every label, the counts give the number
      of rows. */
  lemma {:induction false} CountsTotal(rows: seq<Row>, keys: set<string>)
    requires forall i :: 0 <= i < |rows| ==> rows[i].result in keys
    ensures Sum(keys, Counts(rows)) == |rows| as real
  {
    if rows != [] {
      var p, r := rows[..|rows| - 1], rows[|rows| - 1].result;
      assert forall i :: 0 <= i < |p| ==> p[i] == rows[i];
      CountsTotal(p, keys);
      SumRemove(keys, Counts(rows), r);
      SumRemove(keys, Counts(p), r);
      SumCongruent(keys - {r}, Counts(rows), Counts(p));
    } else {
      SumZero(keys, Counts(rows));
    }
  }

  /** The histogram's counts sum to the number of rows (src/lib.rs:170-177). */
  lemma HistogramTotal(rows: seq<Row>)
    ensures Sum(Labels(rows), Counts(rows)) == |rows| as real
  {
    LabelsCounted(rows);
    CountsTotal(rows, Labels(rows));
  }

  // ---------------------------------------------------------------------
  // The majority label

  /** `m` is what `most_common` may return: `""` for no rows, otherwise a
      label present whose count no other label exceeds. */
  ghost predicate IsMostCommon(rows: seq<Row>, m: string)
  {
    if rows == [] then m == ""
    else m in Labels(rows) && forall l :: Count(rows, l) <= Count(rows, m)
  }

  /** `most_common` (src/lib.rs:157-168): a running maximum over the
      histogram, replaced on `>=`, starting from count 0 and `""`. */
  method MostCommon(rows: seq<Row>) returns (m: string)
    ensures IsMostCommon(rows, m)
  {
    var counter := CountResults(rows);
    LabelsCounted(rows);
    var maxCount := 0;
    m := "";
    var remaining := counter.Keys;
    while remaining != {}
      invariant remaining <= counter.Keys
      invariant remaining == counter.Keys ==> m == "" && maxCount == 0
      invariant remaining != counter.Keys ==> m in counter && maxCount == counter[m]
      invariant forall l :: l in counter && l !in remaining ==> counter[l] <= maxCount
      decreases |remaining|
    {
      var value :| value in remaining;
      if counter[value] >= maxCount {
        maxCount := counter[value];
        m := value;
      }
      remaining := remaining - {value};
    }
    if rows != [] {
      assert rows[0].result in counter;
    }
  }

  /** All rows carry the same label. */
  ghost predicate Pure(rows: seq<Row>)
  {
    forall i, j :: 0 <= i < |rows| && 0 <= j < |rows| ==> rows[i].result == rows[j].result
  }

  /** Of rows that all carry one label, that label is the majority. */
  lemma MostCommonOfPure(rows: seq<Row>, m: string)
    requires rows != [] && Pure(rows) && IsMostCommon(rows, m)
    ensures m == rows[0].result
  {
    LabelsCounted(rows);
  }

  // ---------------------------------------------------------------------
  // Entropy

  /** `-p ln p`, one label's contribution to the entropy when `p` is its
      share of the rows (src/lib.rs:184-187). */
  function Contribution(fraction: real, ln: real -> real): real
  {
    -fraction * ln(fraction)
  }

  /** The entropy of the rows' labels (src/lib.rs:179-190): the sum of every
      label's contribution. */
  ghost function Entropy(rows: seq<Row>, ln: real -> real): real
    decreases 0, |Labels(rows)| + 1
  {
    Sum(Labels(rows), Surprisal(rows, ln))
  }

  /** `entropy` (src/lib.rs:179-190): the terms summed in the order the
      histogram hands its labels out. */
  method ComputeEntropy(rows: seq<Row>, ln: real -> real) returns (entropy: real)
    ensures entropy == Entropy(rows, ln)
  {
    var total := |rows| as real;
    var counter := CountResults(rows);
    entropy := 0.0;
    var remaining := counter.Keys;
    while remaining != {}
      invariant remaining <= counter.Keys
      invariant entropy == Sum(counter.Keys - remaining, Surprisal(rows, ln))
      decreases |remaining|
    {
      var outcome :| outcome in remaining;
      var count := counter[outcome];
      var fraction := count as real / total;
      if count != 0 {
        entropy := entropy + Contribution(fraction, ln);
      }
      SumTakeOne(counter.Keys, remaining, Surprisal(rows, ln), outcome);
      remaining := remaining - {outcome};
    }
    assert counter.Keys - remaining == counter.Keys;
  }

  /** Rows that all carry one label number that label's count. */
  lemma {:induction false} PureCounts(rows: seq<Row>)
    requires rows != [] && Pure(rows)
    ensures Labels(rows) == {rows[0].result}
    ensures Count(rows, rows[0].result) == |rows|
  {
    var p := rows[..|rows| - 1];
    if p != [] {
      assert forall i :: 0 <= i < |p| ==> p[i] == rows[i];
      PureCounts(p);
    }
  }

  /** With ln(1) = 0, rows that are all of one label, or no rows at all,
      have entropy 0 (src/lib.rs:179-190). */
  lemma EntropyVanishes(rows: seq<Row>, ln: real -> real)
    requires Pure(rows) && ln(1.0) == 0.0
    ensures Entropy(rows, ln) == 0.0
  {
    if rows != [] {
      PureCounts(rows);
      var l := rows[0].result;
      assert Count(rows, l) as real / |rows| as real == 1.0;
      SumRemove(Labels(rows), Surprisal(rows, ln), l);
      assert Labels(rows) - {l} == {};
    }
  }

  /** One label's contribution is never negative when the logarithm is
      not positive at its share. */
  lemma ContributionNonNegative(fraction: real, ln: real -> real)
    requires 0.0 < fraction && ln(fraction) <= 0.0
    ensures Contribution(fraction, ln) >= 0.0
  {
    assert fraction * ln(fraction) <= 0.0;
  }

  /** With a logarithm that is never positive on (0, 1], as the natural
      logarithm is, the entropy of any rows is never negative. */
  lemma EntropyNonNegative(rows: seq<Row>, ln: real -> real)
    requires forall x :: 0.0 < x <= 1.0 ==> ln(x) <= 0.0
    ensures Entropy(rows, ln) >= 0.0
  {
    forall l | l in Labels(rows)
      ensures Term(Surprisal(rows, ln), l) >= 0.0
    {
      if Count(rows, l) != 0 {
        var fraction := Count(rows, l) as real / |rows| as real;
        assert 0.0 < fraction <= 1.0;
        ContributionNonNegative(fraction, ln);
      }
    }
    SumNonNegative(Labels(rows), Surprisal(rows, ln));
  }

  // ---------------------------------------------------------------------
  // Partitioning by an attribute

  /** The rows whose value for `attribute` is `variant`, in input order. */
  function Bucket(rows: seq<Row>, attribute: string, variant: string): seq<Row>
  {
    if rows == [] then []
    else
      var r := rows[|rows| - 1];
      var b := Bucket(rows[..|rows| - 1], attribute, variant);
      if attribute in r.values && r.values[attribute] == variant then b + [r] else b
  }

  /** Every row has a value for `attribute`, and it is one of `variants`:
      what the `unwrap`s at src/lib.rs:198-203 demand. */
  ghost predicate Listed(rows: seq<Row>, attribute: string, variants: seq<string>)
  {
    forall i :: 0 <= i < |rows| ==> attribute in rows[i].values && rows[i].values[attribute] in variants
  }

  /** `partitions` maps each of `keys`, and nothing else, to its bucket of
      `rows`. */
  ghost predicate Partitioned(partitions: map<string, seq<Row>>, rows: seq<Row>, attribute: string, keys: set<string>)
  {
    partitions.Keys == keys && forall v :: v in partitions ==> partitions[v] == Bucket(rows, attribute, v)
  }

  /** Opening one more empty bucket before any row is placed. */
  lemma OpenBucket(partitions: map<string, seq<Row>>, attribute: string, keys: set<string>, variant: string)
    requires Partitioned(partitions, [], attribute, keys)
    ensures Partitioned(partitions[variant := []], [], attribute, keys + {variant})
  {
  }

  /** Pushing the next row onto the bucket of its value. */
  lemma PlaceRow(partitions: map<string, seq<Row>>, rows: seq<Row>, i: nat, attribute: string, keys: set<string>)
    requires i < |rows| && attribute in rows[i].values && rows[i].values[attribute] in keys
    requires Partitioned(partitions, rows[..i], attribute, keys)
    ensures var v := rows[i].values[attribute];
            Partitioned(partitions[v := partitions[v] + [rows[i]]], rows[..i + 1], attribute, keys)
  {
    assert rows[..i + 1][..i] == rows[..i];
  }

  /** `partition_by_attribute` (src/lib.rs:192-206): one empty bucket per
      variant of the attribute, then every row pushed onto the bucket of its
      value. */
  method PartitionByAttribute(rows: seq<Row>, data: InputData, attribute: string)
    returns (partitions: map<string, seq<Row>>)
    requires attribute in data.attributeMap
    requires Listed(rows, attribute, data.attributeMap[attribute].variants)
    ensures partitions.Keys == Elements(data.attributeMap[attribute].variants)
    ensures forall v :: v in partitions ==> partitions[v] == Bucket(rows, attribute, v)
  {
    var variants := data.attributeMap[attribute].variants;
    partitions := map[];
    var k := 0;
    while k < |variants|
      invariant k <= |variants|
      invariant Partitioned(partitions, [], attribute, Elements(variants[..k]))
    {
      OpenBucket(partitions, attribute, Elements(variants[..k]), variants[k]);
      ElementsSnoc(variants, k);
      partitions := partitions[variants[k] := []];
      k := k + 1;
    }
    assert variants[..k] == variants;
    assert rows[..0] == [];
    var i := 0;
    while i < |rows|
      invariant i <= |rows|
      invariant Partitioned(partitions, rows[..i], attribute, Elements(variants))
    {
      PlaceRow(partitions, rows, i, attribute, Elements(variants));
      var variant := rows[i].values[attribute];
      partitions := partitions[variant := partitions[variant] + [rows[i]]];
      i := i + 1;
    }
    assert rows[..i] == rows;
  }

  /** A row is in a bucket exactly when it is one of the rows and carries
      that bucket's value. */
  lemma {:induction false} BucketMembership(rows: seq<Row>, attribute: string, variant: string)
    ensures forall r :: r in Bucket(rows, attribute, variant) <==>
                        r in rows && attribute in r.values && r.values[attribute] == variant
  {
    if rows != [] {
      var p := rows[..|rows| - 1];
      BucketMembership(p, attribute, variant);
      assert rows == p + [rows[|rows| - 1]];
    }
  }

  /** Summed over a set holding every row's value, the bucket sizes give the
      number of rows: no row is lost or duplicated (src/lib.rs:201-204). */
  lemma {:induction false} PartitionSizes(rows: seq<Row>, attribute: string, keys: set<string>)
    requires forall i :: 0 <= i < |rows| ==> attribute in rows[i].values && rows[i].values[attribute] in keys
    ensures Sum(keys, Sizes(rows, attribute)) == |rows| as real
  {
    if rows != [] {
      var p, r := rows[..|rows| - 1], rows[|rows| - 1];
      assert forall i :: 0 <= i < |p| ==> p[i] == rows[i];
      var v := r.values[attribute];
      PartitionSizes(p, attribute, keys);
      SumRemove(keys, Sizes(rows, attribute), v);
      SumRemove(keys, Sizes(p, attribute), v);
      SumCongruent(keys - {v}, Sizes(rows, attribute), Sizes(p, attribute));
    } else {
      SumZero(keys, Sizes(rows, attribute));
    }
  }

  /** A bucket of a table that conforms to the schema conforms as well. */
  lemma BucketConforms(rows: seq<Row>, names: seq<string>, amap: map<string, Attribute>, attribute: string, variant: string)
    requires Conforms(rows, names, amap)
    ensures Conforms(Bucket(rows, attribute, variant), names, amap)
  {
    BucketMembership(rows, attribute, variant);
    var b := Bucket(rows, attribute, variant);
    forall i, a | 0 <= i < |b| && a in names
      ensures a in b[i].values && b[i].values[a] in amap[a].variants
    {
      assert b[i] in rows;
    }
  }

  // ---------------------------------------------------------------------
  // Information gain

  /** The information gain of splitting `rows` on `attribute`, whose variants
      are `variants` (src/lib.rs:208-218). `None` stands for the NaN that
      `0.0 / 0.0` yields when there are no rows but there are buckets. */
  ghost function Gain(rows: seq<Row>, variants: seq<string>, attribute: string, ln: real -> real): Option<real>
  {
    if |rows| == 0 && variants != [] then None
    else Some(Entropy(rows, ln) - Sum(Elements(variants), WeightedEntropy(rows, attribute, ln)))
  }

  /** A bucket's entropy weighted by its size over the number of rows
      (src/lib.rs:214-215). */
  function Weighted(entropy: real, size: nat, total: real): real
    requires total != 0.0
  {
    entropy * size as real / total
  }

  /** One more bucket's weighted entropy added to those summed so far. */
  lemma WeightedStep(rows: seq<Row>, attribute: string, ln: real -> real, keys: set<string>, remaining: set<string>, variant: string)
    requires variant in remaining && remaining <= keys && |rows| > 0
    ensures Sum(keys - (remaining - {variant}), WeightedEntropy(rows, attribute, ln)) ==
            Sum(keys - remaining, WeightedEntropy(rows, attribute, ln)) +
            Weighted(Entropy(Bucket(rows, attribute, variant), ln), |Bucket(rows, attribute, variant)|, |rows| as real)
  {
    SumTakeOne(keys, remaining, WeightedEntropy(rows, attribute, ln), variant);
  }

  /** `entropy_gain` (src/lib.rs:208-218): the weighted bucket entropies
      summed in hash-map order and taken from the entropy of the whole. */
  method EntropyGain(rows: seq<Row>, data: InputData, attribute: string, ln: real -> real) returns (gain: Option<real>)
    requires attribute in data.attributeMap
    requires Listed(rows, attribute, data.attributeMap[attribute].variants)
    ensures gain == Gain(rows, data.attributeMap[attribute].variants, attribute, ln)
  {
    var originalEntropy := ComputeEntropy(rows, ln);
    var partitions := PartitionByAttribute(rows, data, attribute);
    var totalNewEntropy, isNaN := SumWeightedEntropies(rows, attribute, partitions, ln);
    var variants := data.attributeMap[attribute].variants;
    assert variants != [] ==> variants[0] in partitions;
    if isNaN {
      gain := None;
    } else {
      gain := Some(originalEntropy - totalNewEntropy);
    }
  }

  /** The loop of `entropy_gain` (src/lib.rs:212-216): each bucket's
      entropy weighted by its share of the rows, summed in hash-map order.
      With no rows every share is `0.0 / 0.0`, a NaN, and a NaN absorbs the
      sum; `isNaN` records that. */
  method SumWeightedEntropies(rows: seq<Row>, attribute: string, partitions: map<string, seq<Row>>, ln: real -> real) returns (totalNewEntropy: real, isNaN: bool)
    requires forall v :: v in partitions ==> partitions[v] == Bucket(rows, attribute, v)
    ensures isNaN <==> |rows| == 0 && partitions != map[]
    ensures !isNaN ==> totalNewEntropy == Sum(partitions.Keys, WeightedEntropy(rows, attribute, ln))
  {
    var totalLen := |rows| as real;
    totalNewEntropy := 0.0;
    isNaN := false;
    var remaining := partitions.Keys;
    while remaining != {}
      invariant remaining <= partitions.Keys
      invariant isNaN <==> |rows| == 0 && |remaining| < |partitions.Keys|
      invariant !isNaN ==> totalNewEntropy == Sum(partitions.Keys - remaining, WeightedEntropy(rows, attribute, ln))
      decreases |remaining|
    {
      var variant :| variant in remaining;
      var newEntropy := ComputeEntropy(partitions[variant], ln);
      if totalLen == 0.0 {
        isNaN := true;
      } else {
        WeightedStep(rows, attribute, ln, partitions.Keys, remaining, variant);
        totalNewEntropy := totalNewEntropy + Weighted(newEntropy, |partitions[variant]|, totalLen);
      }
      remaining := remaining - {variant};
    }
    assert partitions.Keys - remaining == partitions.Keys;
  }

  // ---------------------------------------------------------------------
  // Sums over a hash map's keys

  /** The per-key quantities the induction adds up over a hash map's keys:
      a label's count (src/lib.rs:170-177), a label's contribution to the
      entropy (src/lib.rs:184-187), a bucket's size (src/lib.rs:201-204) and
      a bucket's entropy weighted by its share of the rows
      (src/lib.rs:214-215). */
  datatype Summand =
    | Counts(rows: seq<Row>)
    | Surprisal(rows: seq<Row>, ln: real -> real)
    | Sizes(rows: seq<Row>, attribute: string)
    | WeightedEntropy(rows: seq<Row>, attribute: string, ln: real -> real)

  /** Weighted entropies are made of sums of the other summands. */
  function Rank(t: Summand): nat
  {
    if t.WeightedEntropy? then 1 else 0
  }

  /** The value summand `t` gives to `key`. */
  ghost function Term(t: Summand, key: string): real
    decreases Rank(t), 0
  {
    match t
    case Counts(rows) => Count(rows, key) as real
    case Surprisal(rows, ln) =>
      if Count(rows, key) == 0 then 0.0 else Contribution(Count(rows, key) as real / |rows| as real, ln)
    case Sizes(rows, attribute) => |Bucket(rows, attribute, key)| as real
    case WeightedEntropy(rows, attribute, ln) =>
      if |rows| == 0 then 0.0
      else Weighted(Entropy(Bucket(rows, attribute, key), ln), |Bucket(rows, attribute, key)|, |rows| as real)
  }

  /** The sum of `t` over `keys`, the keys taken in an order nothing is
      promised about. */
  ghost function Sum(keys: set<string>, t: Summand): real
    decreases Rank(t), |keys|
  {
    if keys == {} then 0.0
    else
      var key := Pick(keys);
      Term(t, key) + Sum(keys - {key}, t)
  }

  /** The sum does not depend on the order: any key can be taken first. */
  lemma {:induction false} SumRemove(keys: set<string>, t: Summand, key: string)
    requires key in keys
    ensures Sum(keys, t) == Term(t, key) + Sum(keys - {key}, t)
    decreases |keys|
  {
    var first := Pick(keys);
    if first != key {
      SumRemove(keys - {first}, t, key);
      SumRemove(keys - {key}, t, first);
      assert keys - {first} - {key} == keys - {key} - {first};
    }
  }

  /** Adding one new key to the keys summed so far. */
  lemma SumAdd(keys: set<string>, t: Summand, key: string)
    requires key !in keys
    ensures Sum(keys + {key}, t) == Sum(keys, t) + Term(t, key)
  {
    SumRemove(keys + {key}, t, key);
    assert keys + {key} - {key} == keys;
  }

  /** One more key taken out of those still to be summed. */
  lemma SumTakeOne(keys: set<string>, remaining: set<string>, t: Summand, key: string)
    requires key in remaining && remaining <= keys
    ensures Sum(keys - (remaining - {key}), t) == Sum(keys - remaining, t) + Term(t, key)
  {
    SumAdd(keys - remaining, t, key);
    assert keys - (remaining - {key}) == (keys - remaining) + {key};
  }

  /** Summands that agree on every key have the same sum. */
  lemma {:induction false} SumCongruent(keys: set<string>, t: Summand, u: Summand)
    requires forall key :: key in keys ==> Term(t, key) == Term(u, key)
    ensures Sum(keys, t) == Sum(keys, u)
    decreases |keys|
  {
    if keys != {} {
      var first := Pick(keys);
      SumCongruent(keys - {first}, t, u);
    }
  }

  /** A summand that is zero on every key sums to zero. */
  lemma {:induction false} SumZero(keys: set<string>, t: Summand)
    requires forall key :: key in keys ==> Term(t, key) == 0.0
    ensures Sum(keys, t) == 0.0
    decreases |keys|
  {
    if keys != {} {
      SumZero(keys - {Pick(keys)}, t);
    }
  }

  /** A summand that is never negative on `keys` has a sum that is not
      negative. */
  lemma {:induction false} SumNonNegative(keys: set<string>, t: Summand)
    requires forall key :: key in keys ==> Term(t, key) >= 0.0
    ensures Sum(keys, t) >= 0.0
    decreases |keys|
  {
    if keys != {} {
      SumNonNegative(keys - {Pick(keys)}, t);
    }
  }
}
