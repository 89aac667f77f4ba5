/** Small value-level helpers shared by the model: an option type, the
    arbitrary-but-fixed element a hash map hands out first, and duplicate-free
    lists kept in first-seen order (the `Vec` + `contains` idiom of the
    loader). */
module Collections {

  datatype Option<+T> = None | Some(value: T)

  /** The elements of a sequence, as a set. */
  function Elements<T>(s: seq<T>): set<T>
  {
    set x | x in s
  }

  /** Some element of a non-empty set. Enumerating a hash map is modelled as
      repeatedly taking such an element: nothing is promised about which. */
  ghost function Pick<T>(s: set<T>): T
    requires s != {}
  {
    var x :| x in s; x
  }

  ghost predicate NoDup<T>(s: seq<T>)
  {
    forall i, j :: 0 <= i < j < |s| ==> s[i] != s[j]
  }

  /** The distinct elements of `s`, each where it first occurs: what a list
      grows into when every value is pushed only if it is not yet contained. */
  function Dedup<T(==)>(s: seq<T>): seq<T>
  {
    if s == [] then []
    else
      var d := Dedup(s[..|s| - 1]);
      if s[|s| - 1] in d then d else d + [s[|s| - 1]]
  }

  /** Pushing one more value: it is appended exactly when it is new. */
  lemma DedupAppend<T>(s: seq<T>, x: T)
    ensures Dedup(s + [x]) == if x in Dedup(s) then Dedup(s) else Dedup(s) + [x]
  {
    assert (s + [x])[..|s|] == s;
  }

  /** Extending a prefix by the next element. */
  lemma TakeSnoc<T>(s: seq<T>, n: nat)
    requires n < |s|
    ensures s[..n] + [s[n]] == s[..n + 1]
  {
  }

  /** Taking one more element out of those still to be visited. */
  lemma TakeOne<T>(all: set<T>, remaining: set<T>, x: T)
    requires x in remaining && remaining <= all
    ensures all - (remaining - {x}) == (all - remaining) + {x}
  {
  }

  /** The elements of a prefix extended by the next element. */
  lemma ElementsSnoc<T>(s: seq<T>, n: nat)
    requires n < |s|
    ensures Elements(s[..n + 1]) == Elements(s[..n]) + {s[n]}
  {
    assert s[..n + 1] == s[..n] + [s[n]];
  }

  /** A deduplicated list has no repeats and holds exactly the values seen. */
  lemma {:induction false} DedupProperties<T>(s: seq<T>)
    ensures NoDup(Dedup(s))
    ensures forall x :: x in Dedup(s) <==> x in s
  {
    if s != [] {
      var p := s[..|s| - 1];
      DedupProperties(p);
      assert s == p + [s[|s| - 1]];
    }
  }
}
