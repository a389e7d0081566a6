/**
 * `tidyConfigStack`'s first two passes, held in identical form by the
 * cluster launcher helper and the MapReduce helper: values an entry shares
 * with the core are dropped from it, and values every entry shares are
 * moved into the core. The empty key is never deleted from an entry.
 */
module ConfigTidy {
  import opened Common

  /** An entry without the keys whose value equals the core's (the empty key excepted). */
  function DropRedundant(core: Entry, e: Entry): Entry
  {
    map k | k in e && !(k != "" && k in core && core[k] == e[k]) :: e[k]
  }

  function DropAll(core: Entry, stack: seq<Entry>): (r: seq<Entry>)
    ensures |r| == |stack|
  {
    seq(|stack|, j requires 0 <= j < |stack| => DropRedundant(core, stack[j]))
  }

  /** Every entry holds `key`, with value `val`. */
  predicate SameInAll(stack: seq<Entry>, key: string, val: Value)
  {
    forall j :: 0 <= j < |stack| ==> key in stack[j] && stack[j][key] == val
  }

  /** The keys every entry holds with one value that the core does not contradict. */
  function Promotable(core: Entry, stack: seq<Entry>): set<string>
  {
    if stack == [] then {}
    else set k | k in stack[0] && SameInAll(stack, k, stack[0][k]) && (k !in core || core[k] == stack[0][k])
  }

  /** The core once the promotable keys are moved into it. */
  function PromotedCore(core: Entry, stack: seq<Entry>): Entry
  {
    var p := Promotable(core, stack);
    map k | k in core.Keys + p :: if k in p then stack[0][k] else core[k]
  }

  /** The entries once the promoted keys (the empty key excepted) are deleted from them. */
  function StrippedStack(core: Entry, stack: seq<Entry>): (r: seq<Entry>)
    ensures |r| == |stack|
  {
    var dead := Promotable(core, stack) - {""};
    seq(|stack|, j requires 0 <= j < |stack| => stack[j] - dead)
  }

  /** The core and the stack after both passes. */
  function TidyCore(core: Entry, stack: seq<Entry>): Entry
  {
    PromotedCore(core, DropAll(core, stack))
  }

  function TidyStack(core: Entry, stack: seq<Entry>): seq<Entry>
  {
    StrippedStack(core, DropAll(core, stack))
  }

  /** The dictionary a configuration reads: its own entries over the core's. */
  function Merged(core: Entry, e: Entry): Entry
  {
    core + e
  }

  /**
   * The first pass: for each entry, the keys it shares with the core are
   * collected, then every such key with a non-empty name is deleted.
   */
  method DropRedundantEntries(core: Entry, stack: seq<Entry>) returns (result: seq<Entry>)
    ensures result == DropAll(core, stack)
  {
    result := stack;
    for i := 0 to |stack|
      invariant |result| == |stack|
      invariant forall j :: 0 <= j < i ==> result[j] == DropRedundant(core, stack[j])
      invariant forall j :: i <= j < |stack| ==> result[j] == stack[j]
    {
      var cfgA := result[i];
      var deadkeys: set<string> := {};
      var todo := cfgA.Keys;
      while todo != {}
        invariant todo <= cfgA.Keys
        invariant deadkeys == set k | k in cfgA.Keys - todo && k in core && core[k] == cfgA[k]
        decreases todo
      {
        var key :| key in todo;
        if key in core && core[key] == cfgA[key] {
          deadkeys := deadkeys + {key};
        }
        todo := todo - {key};
      }
      var kept := cfgA;
      var pending := deadkeys;
      while pending != {}
        invariant pending <= deadkeys
        invariant kept == cfgA - ((deadkeys - pending) - {""})
        decreases pending
      {
        var key :| key in pending;
        if |key| > 0 {
          kept := kept - {key};
        }
        pending := pending - {key};
      }
      assert kept == DropRedundant(core, stack[i]);
      result := result[i := kept];
    }
  }

  /** Whether every entry holds `key` with value `val`; stops at the first that does not. */
  method HeldByAll(stack: seq<Entry>, key: string, val: Value) returns (consistent: bool)
    ensures consistent <==> SameInAll(stack, key, val)
  {
    consistent := true;
    var b := 0;
    while b < |stack|
      invariant 0 <= b <= |stack|
      invariant forall j :: 0 <= j < b ==> key in stack[j] && stack[j][key] == val
      decreases |stack| - b
    {
      if key !in stack[b] || stack[b][key] != val {
        consistent := false;
        break;
      }
      b := b + 1;
    }
  }

  /** The core with the given keys of the first entry written into it. */
  function WithKeys(core: Entry, stack: seq<Entry>, keys: set<string>): Entry
    requires stack != [] ==> keys <= stack[0].Keys
    requires stack == [] ==> keys == {}
  {
    map k | k in core.Keys + keys :: if k in keys then stack[0][k] else core[k]
  }

  lemma WithAllPromotable(core: Entry, stack: seq<Entry>)
    ensures stack != [] ==> Promotable(core, stack) <= stack[0].Keys
    ensures WithKeys(core, stack, Promotable(core, stack)) == PromotedCore(core, stack)
  {
  }

  /**
   * Checks one key of an entry against all entries and the core, and moves
   * it into the core when it is consistent.
   */
  method ConsiderKey(core: Entry, stack: seq<Entry>, a: nat, key: string,
                     newCore: Entry, deadkeys: set<string>)
    returns (newCore': Entry, deadkeys': set<string>)
    requires a < |stack| && key in stack[a]
    requires deadkeys <= Promotable(core, stack)
    requires newCore == WithKeys(core, stack, deadkeys)
    ensures deadkeys' == deadkeys + ({key} * Promotable(core, stack))
    ensures newCore' == WithKeys(core, stack, deadkeys')
  {
    var val := stack[a][key];
    var consistent := HeldByAll(stack, key, val);
    if key in newCore && newCore[key] != val {
      consistent := false;
    }
    assert consistent <==> key in Promotable(core, stack) by {
      if SameInAll(stack, key, val) {
        assert key in stack[0] && val == stack[0][key];
      }
    }
    newCore', deadkeys' := newCore, deadkeys;
    if consistent {
      newCore' := newCore[key := val];
      deadkeys' := deadkeys + {key};
    }
  }

  /** Deletes the marked keys with non-empty names from every entry. */
  method DeleteKeys(stack: seq<Entry>, deadkeys: set<string>) returns (newStack: seq<Entry>)
    ensures |newStack| == |stack|
    ensures forall j :: 0 <= j < |stack| ==> newStack[j] == stack[j] - (deadkeys - {""})
  {
    newStack := stack;
    var pending := deadkeys;
    while pending != {}
      invariant pending <= deadkeys
      invariant |newStack| == |stack|
      invariant forall j :: 0 <= j < |stack| ==> newStack[j] == stack[j] - ((deadkeys - pending) - {""})
      decreases pending
    {
      var key :| key in pending;
      if |key| > 0 {
        for b := 0 to |newStack|
          invariant |newStack| == |stack|
          invariant forall j :: 0 <= j < b ==> newStack[j] == stack[j] - ((deadkeys - (pending - {key})) - {""})
          invariant forall j :: b <= j < |stack| ==> newStack[j] == stack[j] - ((deadkeys - pending) - {""})
        {
          newStack := newStack[b := newStack[b] - {key}];
        }
      }
      pending := pending - {key};
    }
  }

  /**
   * The second pass: every key of every entry is checked against all
   * entries and the core; a consistent one is written into the core and
   * marked, and the marked keys with non-empty names are then deleted from
   * every entry.
   */
  method PromoteCommonKeys(core: Entry, stack: seq<Entry>) returns (newCore: Entry, newStack: seq<Entry>)
    ensures newCore == PromotedCore(core, stack)
    ensures newStack == StrippedStack(core, stack)
  {
    newCore := core;
    var deadkeys: set<string> := {};
    ghost var seen: set<string> := {};
    for a := 0 to |stack|
      invariant forall j :: 0 <= j < a ==> stack[j].Keys <= seen
      invariant deadkeys == seen * Promotable(core, stack)
      invariant newCore == WithKeys(core, stack, deadkeys)
    {
      var todo := stack[a].Keys;
      ghost var seenBefore := seen;
      while todo != {}
        invariant todo <= stack[a].Keys
        invariant seen == seenBefore + (stack[a].Keys - todo)
        invariant deadkeys == seen * Promotable(core, stack)
        invariant newCore == WithKeys(core, stack, deadkeys)
        decreases todo
      {
        var key :| key in todo;
        newCore, deadkeys := ConsiderKey(core, stack, a, key, newCore, deadkeys);
        seen := seen + {key};
        todo := todo - {key};
      }
    }
    WithAllPromotable(core, stack);
    assert deadkeys == Promotable(core, stack) by {
      if stack != [] {
        assert stack[0].Keys <= seen;
      }
    }
    newStack := DeleteKeys(stack, deadkeys);
  }

  /** Both passes keep every value the core already held, and only add keys to it. */
  lemma TidyKeepsCore(core: Entry, stack: seq<Entry>)
    ensures core.Keys <= TidyCore(core, stack).Keys
    ensures forall k :: k in core ==> TidyCore(core, stack)[k] == core[k]
    ensures forall j :: 0 <= j < |stack| ==> TidyStack(core, stack)[j].Keys <= stack[j].Keys
    ensures forall j, k :: 0 <= j < |stack| && k in TidyStack(core, stack)[j] ==>
              TidyStack(core, stack)[j][k] == stack[j][k]
  {
  }

  /** A key the core gains is one every entry held with the value the core now has. */
  lemma TidyNewCoreKeys(core: Entry, stack: seq<Entry>)
    ensures forall k, j :: k in TidyCore(core, stack) && k !in core && 0 <= j < |stack| ==>
              k in stack[j] && stack[j][k] == TidyCore(core, stack)[k]
  {
    var d := DropAll(core, stack);
    forall k, j | k in TidyCore(core, stack) && k !in core && 0 <= j < |stack|
      ensures k in stack[j] && stack[j][k] == TidyCore(core, stack)[k]
    {
      assert k in Promotable(core, d);
      assert SameInAll(d, k, d[0][k]);
      assert k in d[j];
    }
  }

  /**
   * Tidying never changes what a configuration reads: for every entry, its
   * values laid over the core are the same before and after.
   */
  lemma TidyKeepsMergedView(core: Entry, stack: seq<Entry>, j: int)
    requires 0 <= j < |stack|
    ensures Merged(TidyCore(core, stack), TidyStack(core, stack)[j]) == Merged(core, stack[j])
  {
    var d := DropAll(core, stack);
    var p := Promotable(core, d);
    var c2 := TidyCore(core, stack);
    var e2 := TidyStack(core, stack)[j];
    assert e2 == d[j] - (p - {""});
    forall k | k in p
      ensures k in d[j] && d[j][k] == d[0][k] && k in stack[j] && stack[j][k] == d[0][k]
    {
      assert SameInAll(d, k, d[0][k]);
    }
    TidyKeepsCore(core, stack);
    forall k
      ensures k in Merged(c2, e2) <==> k in Merged(core, stack[j])
      ensures k in Merged(core, stack[j]) ==> Merged(c2, e2)[k] == Merged(core, stack[j])[k]
    {
      if k in stack[j] {
        if k in d[j] && !(k in p && k != "") {
          assert k in e2;
        } else if k in p && k != "" {
          assert c2[k] == d[0][k];
        } else {
          assert core[k] == stack[j][k];
        }
      }
    }
  }

  /** After both passes no entry repeats a value of the core (the empty key excepted). */
  lemma TidyLeavesNoRedundancy(core: Entry, stack: seq<Entry>)
    ensures forall j, k :: 0 <= j < |stack| && k in TidyStack(core, stack)[j] && k != "" && k in TidyCore(core, stack) ==>
              TidyCore(core, stack)[k] != TidyStack(core, stack)[j][k]
  {
    var d := DropAll(core, stack);
    var p := Promotable(core, d);
    forall j, k | 0 <= j < |stack| && k in TidyStack(core, stack)[j] && k != "" && k in TidyCore(core, stack)
      ensures TidyCore(core, stack)[k] != TidyStack(core, stack)[j][k]
    {
      assert k in d[j] && k !in p;
      assert TidyCore(core, stack)[k] == core[k];
    }
  }

  /**
   * A key every entry holds with one value, which the core lacks or agrees
   * with, ends in the core with that value and in no entry.
   */
  lemma TidyPromotesShared(core: Entry, stack: seq<Entry>, k: string, v: Value)
    requires stack != [] && k != ""
    requires SameInAll(stack, k, v)
    requires k !in core || core[k] == v
    ensures k in TidyCore(core, stack) && TidyCore(core, stack)[k] == v
    ensures forall j :: 0 <= j < |stack| ==> k !in TidyStack(core, stack)[j]
  {
    var d := DropAll(core, stack);
    if k in core {
      TidyKeepsCore(core, stack);
      forall j | 0 <= j < |stack| ensures k !in TidyStack(core, stack)[j] {
        assert k !in d[j];
      }
    } else {
      assert k in stack[0];
      assert SameInAll(d, k, d[0][k]);
      assert k in Promotable(core, d);
    }
  }

  /**
   * With a single entry, the core takes every key it lacked, and the entry
   * keeps only the keys whose value differs from the core's, and the empty key.
   */
  lemma TidySingleEntry(core: Entry, e: Entry)
    ensures TidyCore(core, [e]) == e + core
    ensures TidyStack(core, [e]) ==
              [map k | k in e && (k == "" || (k in core && core[k] != e[k])) :: e[k]]
  {
    PromotableOfSingle(core, e);
    var p := Promotable(core, DropAll(core, [e]));
    assert TidyCore(core, [e]) == e + core by {
      assert TidyCore(core, [e]).Keys == (e + core).Keys;
    }
    var d0 := DropRedundant(core, e);
    assert DropAll(core, [e])[0] == d0;
    var m := map k | k in e && (k == "" || (k in core && core[k] != e[k])) :: e[k];
    assert TidyStack(core, [e])[0] == d0 - (p - {""});
    assert (d0 - (p - {""})).Keys == m.Keys;
    assert d0 - (p - {""}) == m;
    assert TidyStack(core, [e]) == [m];
  }

  /** With a single entry, the keys moved into the core are those the core lacks, and a shared empty key. */
  lemma PromotableOfSingle(core: Entry, e: Entry)
    ensures forall k :: k in Promotable(core, DropAll(core, [e])) <==>
              k in e && (k !in core || (k == "" && core[k] == e[k]))
  {
    var d := DropAll(core, [e]);
    assert d[0] == DropRedundant(core, e);
    forall k ensures k in Promotable(core, d) <==> k in e && (k !in core || (k == "" && core[k] == e[k])) {
      if k in d[0] {
        assert SameInAll(d, k, d[0][k]);
      }
    }
  }

  /** The first pass has nothing left to drop after both passes. */
  lemma TidyThenDropIsIdentity(core: Entry, stack: seq<Entry>)
    ensures DropAll(TidyCore(core, stack), TidyStack(core, stack)) == TidyStack(core, stack)
  {
    var c2 := TidyCore(core, stack);
    var s2 := TidyStack(core, stack);
    TidyLeavesNoRedundancy(core, stack);
    var d2 := DropAll(c2, s2);
    forall j | 0 <= j < |s2| ensures d2[j] == s2[j] {
      assert DropRedundant(c2, s2[j]) == s2[j];
    }
  }

  /** After both passes the only key the second pass could still move is the empty one, which the core already holds. */
  lemma TidyThenNothingPromotable(core: Entry, stack: seq<Entry>)
    ensures forall k :: k in Promotable(TidyCore(core, stack), TidyStack(core, stack)) ==>
              k == "" && k in TidyCore(core, stack)
  {
    var d := DropAll(core, stack);
    var p := Promotable(core, d);
    var c2 := TidyCore(core, stack);
    var s2 := TidyStack(core, stack);
    TidyKeepsCore(core, stack);
    forall k | k in Promotable(c2, s2) ensures k == "" && k in c2 {
      assert k in s2[0] && SameInAll(s2, k, s2[0][k]);
      assert k in d[0] && SameInAll(d, k, d[0][k]) by {
        forall j | 0 <= j < |d| ensures k in d[j] && d[j][k] == d[0][k] {
          assert k in s2[j];
        }
      }
      if k !in core {
        assert k in p;
      }
    }
  }

  /** Tidying an already tidied configuration changes nothing. */
  lemma TidyIdempotent(core: Entry, stack: seq<Entry>)
    ensures TidyCore(TidyCore(core, stack), TidyStack(core, stack)) == TidyCore(core, stack)
    ensures TidyStack(TidyCore(core, stack), TidyStack(core, stack)) == TidyStack(core, stack)
  {
    var c2 := TidyCore(core, stack);
    var s2 := TidyStack(core, stack);
    TidyThenDropIsIdentity(core, stack);
    TidyThenNothingPromotable(core, stack);
    var p2 := Promotable(c2, s2);
    assert PromotedCore(c2, s2) == c2;
    assert StrippedStack(c2, s2) == s2 by {
      assert p2 - {""} == {};
      forall j | 0 <= j < |s2| ensures StrippedStack(c2, s2)[j] == s2[j] {
        assert StrippedStack(c2, s2)[j] == s2[j] - {};
      }
    }
  }
}
