/** The ID3 induction itself (`best_attribute`, `ida3_internal`, `ida3`;
    src/lib.rs:110-155 and 220-241) and the decision tree it grows in place. */
module Induction {
  import opened Collections
  import opened Dataset
  import opened Statistics

  // ---------------------------------------------------------------------
  // Choosing the attribute to split on

  /** An attribute `best_attribute` can pick: not yet used on this path, with
      a gain that is a number and at least the starting maximum 0
      (src/lib.rs:225-232). A NaN gain never passes `>=`. */
  ghost predicate Eligible(rows: seq<Row>, amap: map<string, Attribute>, completed: seq<string>, ln: real -> real, a: string)
  {
    && a !in completed
    && a in amap
    && Gain(rows, amap[a].variants, a, ln).Some?
    && Gain(rows, amap[a].variants, a, ln).value >= 0.0
  }

  /** The gain of an attribute whose gain is a number. */
  ghost function GainOf(rows: seq<Row>, amap: map<string, Attribute>, a: string, ln: real -> real): real
    requires a in amap && Gain(rows, amap[a].variants, a, ln).Some?
  {
    Gain(rows, amap[a].variants, a, ln).value
  }

  /** `names[i]` wins among the first `k` names: it is eligible, no eligible
      name has a larger gain, and every later eligible name has a smaller
      one, since an equal gain replaces the maximum (src/lib.rs:230). */
  ghost predicate WinnerAmong(rows: seq<Row>, amap: map<string, Attribute>, names: seq<string>, completed: seq<string>,
                              ln: real -> real, k: nat, i: nat)
  {
    && i < k <= |names|
    && Eligible(rows, amap, completed, ln, names[i])
    && (forall j :: 0 <= j < k && Eligible(rows, amap, completed, ln, names[j]) ==>
          GainOf(rows, amap, names[j], ln) <= GainOf(rows, amap, names[i], ln))
    && (forall j :: i < j < k && Eligible(rows, amap, completed, ln, names[j]) ==>
          GainOf(rows, amap, names[j], ln) < GainOf(rows, amap, names[i], ln))
  }

  /** There is at most one winner. */
  lemma WinnerUnique(rows: seq<Row>, amap: map<string, Attribute>, names: seq<string>, completed: seq<string>,
                     ln: real -> real, k: nat, i: nat, i': nat)
    requires WinnerAmong(rows, amap, names, completed, ln, k, i)
    requires WinnerAmong(rows, amap, names, completed, ln, k, i')
    ensures i == i'
  {
  }

  /** Looking at one more name: it takes over when it is eligible and its
      gain is at least the winner's so far, and otherwise the winner stays. */
  lemma WinnerStep(rows: seq<Row>, amap: map<string, Attribute>, names: seq<string>, completed: seq<string>,
                   ln: real -> real, k: nat, i: nat)
    requires k < |names| && WinnerAmong(rows, amap, names, completed, ln, k, i)
    ensures var next := Eligible(rows, amap, completed, ln, names[k]) &&
                        GainOf(rows, amap, names[k], ln) >= GainOf(rows, amap, names[i], ln);
            WinnerAmong(rows, amap, names, completed, ln, k + 1, if next then k else i)
  {
  }

  /** The first eligible name wins among the names up to it. */
  lemma FirstWinner(rows: seq<Row>, amap: map<string, Attribute>, names: seq<string>, completed: seq<string>,
                    ln: real -> real, k: nat)
    requires k < |names| && Eligible(rows, amap, completed, ln, names[k])
    requires forall j :: 0 <= j < k ==> !Eligible(rows, amap, completed, ln, names[j])
    ensures WinnerAmong(rows, amap, names, completed, ln, k + 1, k)
  {
  }

  /** As soon as one name is eligible there is a winner. */
  lemma {:induction false} WinnerExists(rows: seq<Row>, amap: map<string, Attribute>, names: seq<string>,
                                        completed: seq<string>, ln: real -> real, k: nat, j: nat)
    requires j < k <= |names| && Eligible(rows, amap, completed, ln, names[j])
    ensures exists i: nat :: WinnerAmong(rows, amap, names, completed, ln, k, i)
  {
    var last := k - 1;
    if exists j' :: 0 <= j' < last && Eligible(rows, amap, completed, ln, names[j']) {
      var j' :| 0 <= j' < last && Eligible(rows, amap, completed, ln, names[j']);
      WinnerExists(rows, amap, names, completed, ln, last, j');
      var i: nat :| WinnerAmong(rows, amap, names, completed, ln, last, i);
      WinnerStep(rows, amap, names, completed, ln, last, i);
    } else {
      assert j == last;
      FirstWinner(rows, amap, names, completed, ln, last);
    }
  }

  /** What `best_attribute` returns (src/lib.rs:220-241): the winner among
      all attribute names, unless there is none or it is the empty name that
      doubles as "nothing found". */
  ghost function Choice(rows: seq<Row>, amap: map<string, Attribute>, names: seq<string>, completed: seq<string>,
                        ln: real -> real): Option<string>
  {
    if exists i: nat :: WinnerAmong(rows, amap, names, completed, ln, |names|, i) && names[i] != "" then
      var i: nat :| WinnerAmong(rows, amap, names, completed, ln, |names|, i) && names[i] != "";
      Some(names[i])
    else
      None
  }

  /** A chosen attribute is a non-empty attribute name, not used yet, whose
      gain is a number, at least 0 and at least the gain of every other
      unused attribute. */
  lemma ChoiceSound(rows: seq<Row>, amap: map<string, Attribute>, names: seq<string>, completed: seq<string>,
                    ln: real -> real)
    requires Choice(rows, amap, names, completed, ln).Some?
    ensures var a := Choice(rows, amap, names, completed, ln).value;
            && a in names && a !in completed && a != "" && a in amap
            && Gain(rows, amap[a].variants, a, ln).Some?
            && Gain(rows, amap[a].variants, a, ln).value >= 0.0
            && forall j :: 0 <= j < |names| && names[j] !in completed && names[j] in amap &&
                           Gain(rows, amap[names[j]].variants, names[j], ln).Some? ==>
                 Gain(rows, amap[names[j]].variants, names[j], ln).value <= Gain(rows, amap[a].variants, a, ln).value
  {
    var i: nat :| WinnerAmong(rows, amap, names, completed, ln, |names|, i) && names[i] != "" &&
             Choice(rows, amap, names, completed, ln) == Some(names[i]);
    forall j | 0 <= j < |names| && names[j] !in completed && names[j] in amap &&
               Gain(rows, amap[names[j]].variants, names[j], ln).Some?
      ensures Gain(rows, amap[names[j]].variants, names[j], ln).value <= GainOf(rows, amap, names[i], ln)
    {
      if Gain(rows, amap[names[j]].variants, names[j], ln).value >= 0.0 {
        assert Eligible(rows, amap, completed, ln, names[j]);
      }
    }
  }

  /** Nothing is chosen exactly when no attribute is eligible or the winner
      is the empty name. */
  lemma ChoiceNone(rows: seq<Row>, amap: map<string, Attribute>, names: seq<string>, completed: seq<string>,
                   ln: real -> real)
    ensures Choice(rows, amap, names, completed, ln).None? <==>
            (forall j :: 0 <= j < |names| ==> !Eligible(rows, amap, completed, ln, names[j])) ||
            (exists i: nat :: WinnerAmong(rows, amap, names, completed, ln, |names|, i) && names[i] == "")
  {
    if Choice(rows, amap, names, completed, ln).None? {
      if exists j :: 0 <= j < |names| && Eligible(rows, amap, completed, ln, names[j]) {
        var j :| 0 <= j < |names| && Eligible(rows, amap, completed, ln, names[j]);
        WinnerExists(rows, amap, names, completed, ln, |names|, j);
      }
    } else {
      var i: nat :| WinnerAmong(rows, amap, names, completed, ln, |names|, i) && names[i] != "";
      forall i': nat | WinnerAmong(rows, amap, names, completed, ln, |names|, i')
        ensures names[i'] != ""
      {
        WinnerUnique(rows, amap, names, completed, ln, |names|, i, i');
      }
    }
  }

  /** `best_attribute` (src/lib.rs:220-241): a running maximum over the
      unused attributes in `attribute_names` order, replaced on `>=`,
      starting from gain 0 and the empty name. */
  method BestAttribute(rows: seq<Row>, data: InputData, completed: seq<string>, ln: real -> real)
    returns (best: Option<string>)
    requires Conforms(rows, data.attributeNames, data.attributeMap)
    ensures best == Choice(rows, data.attributeMap, data.attributeNames, completed, ln)
  {
    var names := data.attributeNames;
    ghost var amap := data.attributeMap;
    var maxGain := 0.0;
    var bestName := "";
    ghost var winner := -1;
    var k := 0;
    while k < |names|
      invariant k <= |names| && winner < k
      invariant winner < 0 ==> bestName == "" && maxGain == 0.0
      invariant winner < 0 ==> forall j :: 0 <= j < k ==> !Eligible(rows, amap, completed, ln, names[j])
      invariant winner >= 0 ==> WinnerAmong(rows, amap, names, completed, ln, k, winner)
      invariant winner >= 0 ==> bestName == names[winner] && maxGain == GainOf(rows, amap, names[winner], ln)
    {
      var attribute := names[k];
      if winner >= 0 {
        WinnerStep(rows, amap, names, completed, ln, k, winner);
      } else if Eligible(rows, amap, completed, ln, attribute) {
        FirstWinner(rows, amap, names, completed, ln, k);
      }
      if attribute !in completed {
        var gain := EntropyGain(rows, data, attribute, ln);
        if gain.Some? && gain.value >= maxGain {
          maxGain := gain.value;
          bestName := attribute;
          winner := k;
        }
      }
      k := k + 1;
    }
    if bestName == "" {
      best := None;
    } else {
      best := Some(bestName);
    }
    if winner >= 0 {
      forall i: nat | WinnerAmong(rows, amap, names, completed, ln, |names|, i)
        ensures i == winner
      {
        WinnerUnique(rows, amap, names, completed, ln, |names|, i, winner);
      }
    }
  }

  // ---------------------------------------------------------------------
  // The tree

  /** The tolerance below which an entropy counts as zero (src/lib.rs:129). */
  const EPS: real := 0.000001

  /** `x.abs() <= EPS` (src/lib.rs:131). */
  predicate NearZero(x: real)
  {
    (if x < 0.0 then -x else x) <= EPS
  }

  /** The attribute `ida3_internal` splits `rows` on, or `None` for a leaf:
      none when the rows are (nearly) pure, otherwise what `best_attribute`
      chooses (src/lib.rs:130-136). */
  ghost function Split(rows: seq<Row>, amap: map<string, Attribute>, names: seq<string>, completed: seq<string>,
                       ln: real -> real): Option<string>
  {
    if NearZero(Entropy(rows, ln)) then None else Choice(rows, amap, names, completed, ln)
  }

  /** A decision tree as a value: what a child `Box<DecisionTree>` owns
      once `ida3_internal` has moved the finished subtree into its parent's
      map (src/lib.rs:110-115, 144). */
  datatype Tree = Tree(attribute: Option<string>, leafValue: Option<string>, children: map<string, Tree>,
                       previousAttributes: seq<string>)

  /** The node `ida3_internal` fills in through `&mut` (src/lib.rs:110-115). */
  class DecisionTree {
    var attribute: Option<string>
    var leafValue: Option<string>
    var children: map<string, Tree>
    var previousAttributes: seq<string>

    /** `DecisionTree::new` (src/lib.rs:117-124). */
    constructor ()
      ensures Blank() && previousAttributes == []
    {
      attribute := None;
      leafValue := None;
      children := map[];
      previousAttributes := [];
    }

    /** A node nothing has been decided for yet. */
    ghost predicate Blank()
      reads this
    {
      attribute == None && leafValue == None && children == map[]
    }

    /** A decision node on `a` while its children are being grown: those of
        `done` are there, each grown on its bucket. */
    ghost predicate Growing(rows: seq<Row>, amap: map<string, Attribute>, names: seq<string>, ln: real -> real,
                            a: string, done: set<string>)
      reads this
    {
      && attribute == Some(a) && leafValue == None && children.Keys == done
      && ChildrenGrown(Value(), rows, amap, names, ln)
    }

    /** The node as the value it is moved out as. */
    function Value(): (t: Tree)
      reads this
      ensures t.children == children && t.previousAttributes == previousAttributes
      ensures t.attribute == attribute && t.leafValue == leafValue
    {
      Tree(attribute, leafValue, children, previousAttributes)
    }
  }

  /** The node's own fields as `ida3_internal` leaves them for `rows`: a leaf
      holding a majority label, or a decision node on the chosen attribute with
      one child per variant (src/lib.rs:130-148). */
  ghost predicate Labelled(t: Tree, rows: seq<Row>, amap: map<string, Attribute>, names: seq<string>, ln: real -> real)
  {
    match Split(rows, amap, names, t.previousAttributes, ln)
    case None =>
      t.attribute == None && t.leafValue.Some? && IsMostCommon(rows, t.leafValue.value) && t.children == map[]
    case Some(a) =>
      t.attribute == Some(a) && t.leafValue == None && a in amap && t.children.Keys == Elements(amap[a].variants)
  }

  /** Every child extends the path by the node's attribute and is grown on
      the node's bucket of its variant (src/lib.rs:138-144). */
  ghost predicate ChildrenGrown(t: Tree, rows: seq<Row>, amap: map<string, Attribute>, names: seq<string>, ln: real -> real)
    decreases t, 0
  {
    forall v :: v in t.children ==>
      && t.attribute.Some?
      && t.children[v].previousAttributes == t.previousAttributes + [t.attribute.value]
      && Grown(t.children[v], Bucket(rows, t.attribute.value, v), amap, names, ln)
  }

  /** The whole tree is what `ida3_internal` grows on `rows`. */
  ghost predicate Grown(t: Tree, rows: seq<Row>, amap: map<string, Attribute>, names: seq<string>, ln: real -> real)
    decreases t, 1
  {
    Labelled(t, rows, amap, names, ln) && ChildrenGrown(t, rows, amap, names, ln)
  }

  /** Moving one more grown child into a decision node keeps all its
      children grown. */
  lemma AdoptChild(t: Tree, rows: seq<Row>, amap: map<string, Attribute>, names: seq<string>, ln: real -> real,
                   variant: string, child: Tree)
    requires ChildrenGrown(t, rows, amap, names, ln) && t.attribute.Some?
    requires child.previousAttributes == t.previousAttributes + [t.attribute.value]
    requires Grown(child, Bucket(rows, t.attribute.value, variant), amap, names, ln)
    ensures ChildrenGrown(t.(children := t.children[variant := child]), rows, amap, names, ln)
  {
  }

  /** Each split uses up one attribute name that was still unused. */
  lemma MeasureDrops(names: seq<string>, prev: seq<string>, a: string)
    requires a in names && a !in prev
    ensures |Elements(names) - Elements(prev + [a])| == |Elements(names) - Elements(prev)| - 1
  {
    assert Elements(prev + [a]) == Elements(prev) + {a};
    assert Elements(names) - Elements(prev) == (Elements(names) - Elements(prev + [a])) + {a};
  }

  /** `ida3_internal` (src/lib.rs:128-149): a leaf holding the majority label
      when the rows are pure or no attribute is worth splitting on, else a
      decision node on the chosen attribute. */
  method Ida3Internal(rows: seq<Row>, data: InputData, tree: DecisionTree, ln: real -> real)
    requires tree.Blank()
    requires Conforms(rows, data.attributeNames, data.attributeMap)
    modifies tree
    ensures tree.previousAttributes == old(tree.previousAttributes)
    ensures Grown(tree.Value(), rows, data.attributeMap, data.attributeNames, ln)
    decreases |Elements(data.attributeNames) - Elements(tree.previousAttributes)|, 2
  {
    var currentEntropy := ComputeEntropy(rows, ln);
    if NearZero(currentEntropy) {
      var majority := MostCommon(rows);
      tree.leafValue := Some(majority);
      return;
    }
    var attribute := BestAttribute(rows, data, tree.previousAttributes, ln);
    if attribute.Some? {
      ChoiceSound(rows, data.attributeMap, data.attributeNames, tree.previousAttributes, ln);
      tree.attribute := attribute;
      GrowChildren(rows, data, tree, attribute.value, ln);
    } else {
      var majority := MostCommon(rows);
      tree.leafValue := Some(majority);
    }
  }

  /** The decision branch of `ida3_internal` (src/lib.rs:136-145): the rows
      are partitioned on `a`, and a child is grown for each bucket, in
      hash-map order. */
  method GrowChildren(rows: seq<Row>, data: InputData, tree: DecisionTree, a: string, ln: real -> real)
    requires tree.attribute == Some(a) && tree.leafValue == None && tree.children == map[]
    requires a in data.attributeNames && a !in tree.previousAttributes
    requires Conforms(rows, data.attributeNames, data.attributeMap)
    modifies tree
    ensures tree.previousAttributes == old(tree.previousAttributes)
    ensures tree.Growing(rows, data.attributeMap, data.attributeNames, ln, a, Elements(data.attributeMap[a].variants))
    decreases |Elements(data.attributeNames) - Elements(tree.previousAttributes)|, 1
  {
    var partitions := PartitionByAttribute(rows, data, a);
    var remaining := partitions.Keys;
    while remaining != {}
      invariant remaining <= partitions.Keys
      invariant tree.previousAttributes == old(tree.previousAttributes)
      invariant tree.Growing(rows, data.attributeMap, data.attributeNames, ln, a, partitions.Keys - remaining)
      decreases |remaining|
    {
      var variant :| variant in remaining;
      GrowChild(rows, data, tree, a, variant, partitions[variant], ln, partitions.Keys - remaining);
      TakeOne(partitions.Keys, remaining, variant);
      remaining := remaining - {variant};
    }
    assert partitions.Keys - remaining == partitions.Keys;
  }

  /** One turn of that loop (src/lib.rs:139-144): a fresh node whose path is
      this node's extended by `a` is grown on the bucket of `variant` and
      moved into the children under `variant`. */
  method GrowChild(rows: seq<Row>, data: InputData, tree: DecisionTree, a: string, variant: string,
                   bucket: seq<Row>, ln: real -> real, ghost done: set<string>)
    requires tree.Growing(rows, data.attributeMap, data.attributeNames, ln, a, done)
    requires a in data.attributeNames && a !in tree.previousAttributes
    requires Conforms(rows, data.attributeNames, data.attributeMap)
    requires bucket == Bucket(rows, a, variant)
    modifies tree
    ensures tree.previousAttributes == old(tree.previousAttributes)
    ensures tree.Growing(rows, data.attributeMap, data.attributeNames, ln, a, done + {variant})
    ensures forall v :: v in old(tree.children) && v != variant ==> tree.children[v] == old(tree.children[v])
    decreases |Elements(data.attributeNames) - Elements(tree.previousAttributes)|, 0
  {
    ghost var before := tree.Value();
    var subTree := new DecisionTree();
    subTree.previousAttributes := tree.previousAttributes + [a];
    BucketConforms(rows, data.attributeNames, data.attributeMap, a, variant);
    MeasureDrops(data.attributeNames, tree.previousAttributes, a);
    Ida3Internal(bucket, data, subTree, ln);
    assert tree.Value() == before;
    AdoptChild(before, rows, data.attributeMap, data.attributeNames, ln, variant, subTree.Value());
    tree.children := tree.children[variant := subTree.Value()];
    assert tree.Value() == before.(children := before.children[variant := subTree.Value()]);
  }

  /** `ida3` (src/lib.rs:151-155): the tree grown from a fresh root on all
      the rows of the table. */
  method Ida3(data: InputData, ln: real -> real) returns (tree: DecisionTree)
    requires Conforms(data.rows, data.attributeNames, data.attributeMap)
    ensures tree.previousAttributes == []
    ensures Grown(tree.Value(), data.rows, data.attributeMap, data.attributeNames, ln)
  {
    tree := new DecisionTree();
    Ida3Internal(data.rows, data, tree, ln);
  }

  /** The loader as written followed by `ida3` (src/lib.rs:25-68, 151-155):
      whenever loading does not panic the table has no rows, so the whole
      tree is a single leaf holding the empty label. */
  method InduceAsWritten(records: seq<seq<string>>, resultPosition: nat, ln: real -> real)
    returns (tree: DecisionTree, panicked: bool)
    ensures panicked <==> Panics(records, resultPosition)
    ensures !panicked ==> tree.attribute == None && tree.children == map[] && tree.leafValue == Some("")
  {
    var data;
    data, panicked := FromRecords(records, resultPosition);
    if panicked {
      tree := new DecisionTree();
      return;
    }
    tree := Ida3(data, ln);
    EmptySubsetIsLeaf(tree.Value(), data.attributeMap, data.attributeNames, ln);
  }

  // ---------------------------------------------------------------------
  // What every grown tree satisfies

  /** Rows that all carry one label give a leaf holding that label, when
      ln(1) = 0 (src/lib.rs:130-133). */
  lemma PureSubsetIsLeaf(t: Tree, rows: seq<Row>, amap: map<string, Attribute>, names: seq<string>, ln: real -> real)
    requires Grown(t, rows, amap, names, ln)
    requires rows != [] && Pure(rows) && ln(1.0) == 0.0
    ensures t.attribute == None && t.children == map[] && t.leafValue == Some(rows[0].result)
  {
    EntropyVanishes(rows, ln);
    MostCommonOfPure(rows, t.leafValue.value);
  }

  /** No rows give a leaf holding the empty label (src/lib.rs:130-133,
      157-168). */
  lemma EmptySubsetIsLeaf(t: Tree, amap: map<string, Attribute>, names: seq<string>, ln: real -> real)
    requires Grown(t, [], amap, names, ln)
    ensures t.attribute == None && t.children == map[] && t.leafValue == Some("")
  {
    assert Labels([]) == {};
  }

  /** A node is a leaf holding a label and nothing else, or a decision node
      on an attribute with exactly one child per variant of it. */
  lemma NodeShape(t: Tree, rows: seq<Row>, amap: map<string, Attribute>, names: seq<string>, ln: real -> real)
    requires Grown(t, rows, amap, names, ln)
    ensures t.attribute.None? <==> t.leafValue.Some?
    ensures t.attribute.None? ==> t.children == map[]
    ensures t.attribute.Some? ==> t.attribute.value in amap &&
                                  t.children.Keys == Elements(amap[t.attribute.value].variants)
  {
  }

  /** The attribute a decision node splits on is a name from `names` not
      yet on its path. */
  lemma SplitIsFresh(t: Tree, rows: seq<Row>, amap: map<string, Attribute>, names: seq<string>, ln: real -> real)
    requires Grown(t, rows, amap, names, ln) && t.attribute.Some?
    ensures t.attribute.value in names && t.attribute.value !in t.previousAttributes
  {
    ChoiceSound(rows, amap, names, t.previousAttributes, ln);
  }

  /** No attribute occurs twice on the path to any node. */
  ghost predicate DistinctPaths(t: Tree)
    decreases t
  {
    NoDup(t.previousAttributes) && forall v :: v in t.children ==> DistinctPaths(t.children[v])
  }

  /** Starting from a path without repeats, every path of a grown tree is
      without repeats (src/lib.rs:140-141). */
  lemma {:induction false} PathsDistinct(t: Tree, rows: seq<Row>, amap: map<string, Attribute>, names: seq<string>,
                                         ln: real -> real)
    requires Grown(t, rows, amap, names, ln) && NoDup(t.previousAttributes)
    ensures DistinctPaths(t)
    decreases t
  {
    if t.children != map[] {
      SplitIsFresh(t, rows, amap, names, ln);
      var a := t.attribute.value;
      forall v | v in t.children
        ensures DistinctPaths(t.children[v])
      {
        var path := t.children[v].previousAttributes;
        assert path == t.previousAttributes + [a];
        assert NoDup(path) by {
          forall i, j | 0 <= i < j < |path|
            ensures path[i] != path[j]
          {
            if j == |path| - 1 {
              assert path[i] in t.previousAttributes;
            }
          }
        }
        PathsDistinct(t.children[v], Bucket(rows, a, v), amap, names, ln);
      }
    }
  }

  /** No path below `t` is longer than `h` decisions. */
  ghost predicate DepthAtMost(t: Tree, h: int)
    decreases t
  {
    h >= 0 && forall v :: v in t.children ==> DepthAtMost(t.children[v], h - 1)
  }

  /** A grown tree is no deeper than the number of attribute names not yet
      used when it was started: every decision uses one up. */
  lemma {:induction false} DepthBounded(t: Tree, rows: seq<Row>, amap: map<string, Attribute>, names: seq<string>,
                                        ln: real -> real)
    requires Grown(t, rows, amap, names, ln)
    ensures DepthAtMost(t, |Elements(names) - Elements(t.previousAttributes)|)
    decreases t
  {
    if t.children != map[] {
      SplitIsFresh(t, rows, amap, names, ln);
      var a := t.attribute.value;
      MeasureDrops(names, t.previousAttributes, a);
      forall v | v in t.children
        ensures DepthAtMost(t.children[v], |Elements(names) - Elements(t.previousAttributes)| - 1)
      {
        DepthBounded(t.children[v], Bucket(rows, a, v), amap, names, ln);
      }
    }
  }
}
