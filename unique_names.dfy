/**
 * The labels `tidyConfigStack` gives the configurations of a batch: the
 * duplicate test it runs over them, and the relabelling it applies when two
 * configurations share a label.
 */
module UniqueNames {
  import opened Text

  /** No label occurs twice. */
  predicate Distinct(names: seq<string>)
  {
    forall i, j :: 0 <= i < j < |names| ==> names[i] != names[j]
  }

  /** A sequence with a repeated name holds at least two names. */
  lemma DistinctShort(names: seq<string>)
    requires !Distinct(names)
    ensures |names| > 1
  {
  }

  /** How many of `names` equal `x`. */
  function Count(names: seq<string>, x: string): (r: nat)
    ensures r <= |names|
  {
    if names == [] then 0
    else Count(names[..|names| - 1], x) + (if names[|names| - 1] == x then 1 else 0)
  }

  lemma {:induction false} CountPositive(names: seq<string>, i: int)
    requires 0 <= i < |names|
    ensures Count(names, names[i]) >= 1
    decreases |names|
  {
    if i < |names| - 1 {
      assert names[..|names| - 1][i] == names[i];
      CountPositive(names[..|names| - 1], i);
    }
  }

  lemma {:induction false} CountTwice(names: seq<string>, i: int, j: int)
    requires 0 <= i < j < |names| && names[i] == names[j]
    ensures Count(names, names[i]) >= 2
    decreases |names|
  {
    var front := names[..|names| - 1];
    if j < |names| - 1 {
      assert front[i] == names[i] && front[j] == names[j];
      CountTwice(front, i, j);
    } else {
      assert front[i] == names[i];
      CountPositive(front, i);
    }
  }

  lemma {:induction false} CountOnce(names: seq<string>, i: int)
    requires Distinct(names) && 0 <= i < |names|
    ensures Count(names, names[i]) == 1
    decreases |names|
  {
    var front := names[..|names| - 1];
    assert Distinct(front) by {
      forall a, b | 0 <= a < b < |front| ensures front[a] != front[b] {
        assert front[a] == names[a] && front[b] == names[b];
      }
    }
    if i < |names| - 1 {
      assert front[i] == names[i];
      CountOnce(front, i);
    } else {
      CountAbsent(front, names[i]);
    }
  }

  lemma {:induction false} CountAbsent(names: seq<string>, x: string)
    requires forall i :: 0 <= i < |names| ==> names[i] != x
    ensures Count(names, x) == 0
    decreases |names|
  {
    if names != [] {
      var front := names[..|names| - 1];
      assert forall i :: 0 <= i < |front| ==> front[i] == names[i];
      CountAbsent(front, x);
    }
  }

  /** The duplicate test: every label matches exactly one label, itself, exactly when no label repeats. */
  lemma CountsDecideDistinct(names: seq<string>)
    ensures (forall n :: 0 <= n < |names| ==> Count(names, names[n]) == 1) <==> Distinct(names)
  {
    if Distinct(names) {
      forall n | 0 <= n < |names| ensures Count(names, names[n]) == 1 {
        CountOnce(names, n);
      }
    } else {
      var i, j :| 0 <= i < j < |names| && names[i] == names[j];
      CountTwice(names, i, j);
    }
  }

  /** The label `"cfg%d" % n`. */
  function NumberedLabel(n: nat): string
  {
    "cfg" + NatToString(n)
  }

  /**
   * The relabelling as the source performs it: the loop meant to number
   * every configuration never reselects one, so only the configuration the
   * duplicate test left selected, the last one, is numbered.
   */
  function RelabelAsWritten(names: seq<string>): (r: seq<string>)
    ensures |r| == |names|
  {
    if Distinct(names) then names
    else names[|names| - 1 := NumberedLabel(|names| - 1)]
  }

  /** The relabelling the loop evidently intends: configuration n gets `cfg<n>`. */
  function RelabelAsIntended(names: seq<string>): (r: seq<string>)
    ensures |r| == |names|
  {
    if Distinct(names) then names
    else seq(|names|, n requires 0 <= n < |names| => NumberedLabel(n))
  }

  /** A collision among the configurations before the last survives the relabelling as written. */
  lemma RelabelAsWrittenKeepsCollision(names: seq<string>, i: int, j: int)
    requires 0 <= i < j < |names| - 1 && names[i] == names[j]
    ensures !Distinct(RelabelAsWritten(names))
  {
    assert RelabelAsWritten(names)[i] == RelabelAsWritten(names)[j];
  }

  /** Three configurations whose files share a base name keep two equal labels. */
  lemma RelabelAsWrittenThreeAlike()
    ensures RelabelAsWritten(["run.json", "run.json", "run.json"]) ==
            ["run.json", "run.json", NumberedLabel(2)]
    ensures !Distinct(RelabelAsWritten(["run.json", "run.json", "run.json"]))
  {
    RelabelAsWrittenKeepsCollision(["run.json", "run.json", "run.json"], 0, 1);
  }

  /** The intended relabelling always yields distinct labels, and keeps labels that were distinct. */
  lemma RelabelAsIntendedIsDistinct(names: seq<string>)
    ensures Distinct(RelabelAsIntended(names))
    ensures Distinct(names) ==> RelabelAsIntended(names) == names
  {
    if !Distinct(names) {
      var r := RelabelAsIntended(names);
      forall a, b | 0 <= a < b < |r| ensures r[a] != r[b] {
        if r[a] == r[b] {
          assert NatToString(a) == r[a][3..] == r[b][3..] == NatToString(b);
          NatToStringInjective(a, b);
        }
      }
    }
  }
}
