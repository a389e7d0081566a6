// The configuration store of the MapReduce launcher: the same core, stack
// and cursor as the Ensemble store, with a different lookup rule, a tidy
// without the naming pass and a scrub that restores the core directly.

module MapReduceConfig {
  import opened Common
  import ConfigTidy
  import EnsembleConfig

  const VersionKey := "mrh_launch_helper_version"

  /**
   * `getConfig` of this store over explicit state: a key the selected entry
   * holds is returned whatever its value, even `None`; the core is used only
   * when its value is not `None`; then the default; then an error when the
   * value is required.
   */
  function Lookup(core: Entry, sel: Option<Entry>, key: string, default: Value, required: bool): (r: Result<Value>)
    ensures sel.Some? && key in sel.value ==> r == Ok(sel.value[key])
    ensures !(sel.Some? && key in sel.value) && key in core && core[key] != Null ==> r == Ok(core[key])
    ensures r.Failure? <==>
              required && default == Null && !(sel.Some? && key in sel.value) && !(key in core && core[key] != Null)
    ensures !(sel.Some? && key in sel.value) && !(key in core && core[key] != Null) && default != Null ==> r == Ok(default)
    ensures !(sel.Some? && key in sel.value) && !(key in core && core[key] != Null) && default == Null && !required ==> r == Ok(Null)
  {
    if sel.Some? && key in sel.value then Ok(sel.value[key])
    else if key in core && core[key] != Null then Ok(core[key])
    else if default != Null then Ok(default)
    else if required then Failure("no value given for " + key)
    else Ok(Null)
  }

  /**
   * The two lookups agree unless the selected entry holds `None` for the key:
   * this store returns that `None`, the Ensemble store falls through.
   */
  lemma LookupMatchesEnsembleRead(core: Entry, sel: Option<Entry>, key: string, default: Value, required: bool)
    ensures (sel.Some? && key in sel.value && sel.value[key] == Null) ||
            Lookup(core, sel, key, default, required) == EnsembleConfig.Read(core, sel, key, default, required, true)
  {
  }

  /** An entry holding `None` hides the core value from this lookup but not from the Ensemble one. */
  lemma NullEntryShadowsCore()
    ensures Lookup(map["k" := Str("v")], Some(map["k" := Null]), "k", Null, true) == Ok(Null)
    ensures EnsembleConfig.Read(map["k" := Str("v")], Some(map["k" := Null]), "k", Null, true, true) == Ok(Str("v"))
  {
  }

  /** No entry of the stack holds a `None` value. */
  ghost predicate NoNulls(stack: seq<Entry>)
  {
    forall j, k :: 0 <= j < |stack| && k in stack[j] ==> stack[j][k] != Null
  }

  /**
   * Tidying never changes what a configuration reads, as long as no entry
   * holds `None`: the lookup then agrees with the Ensemble one, whose reads
   * tidying keeps.
   */
  lemma TidyKeepsLookups(core: Entry, stack: seq<Entry>, j: int, key: string, default: Value, required: bool)
    requires 0 <= j < |stack| && NoNulls(stack)
    ensures Lookup(ConfigTidy.TidyCore(core, stack), Some(ConfigTidy.TidyStack(core, stack)[j]), key, default, required)
         == Lookup(core, Some(stack[j]), key, default, required)
  {
    var e' := ConfigTidy.TidyStack(core, stack)[j];
    ConfigTidy.TidyKeepsCore(core, stack);
    assert key in e' ==> e'[key] == stack[j][key];
    LookupMatchesEnsembleRead(core, Some(stack[j]), key, default, required);
    LookupMatchesEnsembleRead(ConfigTidy.TidyCore(core, stack), Some(e'), key, default, required);
    EnsembleConfig.TidyKeepsReads(core, stack, j, key, default, required);
  }

  /**
   * With `None` values tidying can change a read: an entry's `None` equal to
   * the core's is dropped, and the default shows through where `None` did.
   */
  lemma TidyCanChangeNullLookup()
    ensures var core := map["k" := Null];
            var stack := [map["k" := Null]];
            Lookup(core, Some(stack[0]), "k", Str("d"), true) == Ok(Null) &&
            Lookup(ConfigTidy.TidyCore(core, stack), Some(ConfigTidy.TidyStack(core, stack)[0]), "k", Str("d"), true)
              == Ok(Str("d"))
  {
    var core := map["k" := Null];
    var stack := [map["k" := Null]];
    ConfigTidy.TidySingleEntry(core, stack[0]);
  }

  /**
   * The core after `scrubAndPreserveJobConfig`: the blanked core with every
   * saved value written back, the saved copy being seeded with an empty key.
   */
  function RestoredAfterScrub(core: Entry): Entry
  {
    EnsembleConfig.BlankCredentials(core) + (map["" := Str("")] + core)
  }

  /**
   * The restore gives every key its value from before the scrub; it adds the
   * empty key and the credentials the core lacked, these still blanked.
   */
  lemma RestoredAfterScrubSpec(core: Entry)
    ensures var r := RestoredAfterScrub(core);
            (forall k :: k in r <==> k in core || k == "" || k in EnsembleConfig.CredentialKeys()) &&
            (forall k :: k in core ==> r[k] == core[k]) &&
            (forall k :: k in EnsembleConfig.CredentialKeys() && k !in core ==> r[k] == EnsembleConfig.Scrubbed) &&
            ("" !in core ==> r[""] == Str(""))
  {
    var r := RestoredAfterScrub(core);
    forall k | k in EnsembleConfig.CredentialKeys() && k !in core
      ensures r[k] == EnsembleConfig.Scrubbed
    {
      assert k != "";
    }
  }

  class MapReduceStore {
    var core: Entry
    var stack: seq<Entry>
    var current: int

    /** The cursor selects the core (-1) or an entry of the stack. */
    ghost predicate Valid()
      reads this
    {
      -1 <= current < |stack|
    }

    constructor ()
      ensures Valid()
      ensures core == map[VersionKey := Str("0.2")] && stack == [] && current == -1
    {
      core := map[VersionKey := Str("0.2")];
      stack := [];
      current := -1;
    }

    /** The selected entry, absent when the cursor is on the core. */
    function Selected(): Option<Entry>
      reads this
      requires Valid()
    {
      if current == -1 then None else Some(stack[current])
    }

    /** `getConfig`: `Lookup` on the current state. */
    function GetConfig(key: string, default: Value, required: bool): (r: Result<Value>)
      reads this
      requires Valid()
      ensures r == Lookup(core, Selected(), key, default, required)
    {
      Lookup(core, Selected(), key, default, required)
    }

    /** `pushConfig`: a new empty configuration on top of the stack, not selected. */
    method PushConfig()
      requires Valid()
      modifies this
      ensures Valid()
      ensures stack == old(stack) + [map[]] && core == old(core) && current == old(current)
    {
      stack := stack + [map[]];
    }

    /** `selectConfig`: moves the cursor and returns the selected dictionary. */
    method SelectConfig(n: int) returns (cfg: Entry)
      requires -1 <= n < |stack|
      modifies this
      ensures Valid() && current == n
      ensures core == old(core) && stack == old(stack)
      ensures cfg == if n == -1 then core else stack[n]
    {
      current := n;
      cfg := if n == -1 then core else stack[n];
    }

    /** `selectCoreConfig`: the cursor goes to the core. */
    method SelectCoreConfig() returns (cfg: Entry)
      modifies this
      ensures Valid() && current == -1
      ensures core == old(core) && stack == old(stack) && cfg == core
    {
      cfg := SelectConfig(-1);
    }

    /** `setCoreConfig`: writes the core and deletes the key from every configuration. */
    method SetCoreConfig(key: string, val: Value)
      requires Valid()
      modifies this
      ensures Valid() && current == old(current)
      ensures core == old(core)[key := val]
      ensures stack == Evict(old(stack), key)
    {
      core := core[key := val];
      for i := 0 to |stack|
        invariant |stack| == |old(stack)| && current == old(current)
        invariant core == old(core)[key := val]
        invariant forall j :: 0 <= j < i ==> stack[j] == old(stack)[j] - {key}
        invariant forall j :: i <= j < |stack| ==> stack[j] == old(stack)[j]
      {
        if key in stack[i] {
          stack := stack[i := stack[i] - {key}];
        }
      }
    }

    /**
     * `setConfig`: writes the selected configuration, or the core (with
     * eviction) when the core is selected; either way the value written is
     * what the next read returns, `None` included.
     */
    method SetConfig(key: string, val: Value)
      requires Valid()
      modifies this
      ensures Valid() && current == old(current)
      ensures old(current) == -1 ==> core == old(core)[key := val] && stack == Evict(old(stack), key)
      ensures old(current) != -1 ==>
                core == old(core) && stack == old(stack)[current := old(stack)[current][key := val]]
      ensures current != -1 || val != Null ==> GetConfig(key, Null, true) == Ok(val)
    {
      if current == -1 {
        SetCoreConfig(key, val);
      } else {
        stack := stack[current := stack[current][key := val]];
      }
    }

    /**
     * `tidyConfigStack`: the deduplication and promotion passes, with no
     * naming pass; the cursor is left alone, and a second call changes
     * nothing.
     */
    method TidyConfigStack()
      requires Valid()
      modifies this
      ensures Valid() && current == old(current)
      ensures core == ConfigTidy.TidyCore(old(core), old(stack))
      ensures stack == ConfigTidy.TidyStack(old(core), old(stack))
      ensures ConfigTidy.TidyCore(core, stack) == core && ConfigTidy.TidyStack(core, stack) == stack
    {
      var deduped := ConfigTidy.DropRedundantEntries(core, stack);
      core, stack := ConfigTidy.PromoteCommonKeys(core, deduped);
      ConfigTidy.TidyIdempotent(old(core), old(stack));
    }

    /**
     * `scrubAndPreserveJobConfig`: the core is copied (seeded with an empty
     * key), the credentials set to "xxxx" through `setCoreConfig`, the
     * selected configuration serialised, and the copy written straight back
     * into the core. Writing the text out is not modelled; the result is the
     * dictionary it holds.
     */
    method ScrubAndPreserveJobConfig(filename: string) returns (written: Entry)
      requires Valid()
      modifies this
      ensures Valid() && current == old(current)
      ensures core == RestoredAfterScrub(old(core))
      ensures stack == EnsembleConfig.StripCredentials(old(stack))
      ensures written == if current == -1 then EnsembleConfig.BlankCredentials(old(core)) else stack[current]
      ensures forall c :: c in EnsembleConfig.CredentialKeys() ==>
                if current == -1 then c in written && written[c] == EnsembleConfig.Scrubbed else c !in written
    {
      var saveConfig := map["" := Str("")] + core;
      SetCoreConfig(EnsembleConfig.Credentials[0], EnsembleConfig.Scrubbed);
      SetCoreConfig(EnsembleConfig.Credentials[1], EnsembleConfig.Scrubbed);
      SetCoreConfig(EnsembleConfig.Credentials[2], EnsembleConfig.Scrubbed);
      SetCoreConfig(EnsembleConfig.Credentials[3], EnsembleConfig.Scrubbed);
      assert core == EnsembleConfig.BlankCredentials(old(core));
      written := if current == -1 then core else stack[current];
      if current != -1 {
        EnsembleConfig.StripCredentialsAt(old(stack), current);
      }
      RestoreDirectly(saveConfig);
    }

    /** The restore loop of the scrub: every saved pair written into the core, entries untouched. */
    method RestoreDirectly(saved: Entry)
      requires Valid()
      modifies this
      ensures Valid() && current == old(current) && stack == old(stack)
      ensures core == old(core) + saved
    {
      var todo := saved.Keys;
      while todo != {}
        invariant todo <= saved.Keys && current == old(current) && stack == old(stack)
        invariant core == old(core) + map k | k in saved.Keys - todo :: saved[k]
        decreases todo
      {
        var key :| key in todo;
        core := core[key := saved[key]];
        todo := todo - {key};
      }
      assert saved == map k | k in saved.Keys - todo :: saved[k];
    }
  }
}
