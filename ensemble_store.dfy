/**
 * The layered configuration store of the cluster launcher helper: a core
 * dictionary shared by every configuration of a batch, a stack of
 * per-configuration dictionaries, and a cursor selecting one of them (or
 * the core, at -1).
 */
module EnsembleConfig {
  import opened Common
  import opened Text
  import Paths
  import ConfigText
  import ConfigTidy
  import UniqueNames

  const VersionKey := "eca_launch_helper_version"
  const CfgNameKey := "eca_cfgName"
  const UniqueNameKey := "eca_uniqueName"
  const CoreBaseNameKey := "coreBaseName"
  const SavedAsKey := "savedAs"

  /** The credentials blanked out of every saved configuration. */
  const Credentials: seq<string> := ["aws_access_key_id", "aws_secret_access_key", "RSAKey", "RSAKeyName"]
  const Scrubbed := Str("xxxx")

  /** The dictionary holds a non-`None` value for `key`. */
  predicate Found(m: Entry, key: string)
  {
    key in m && m[key] != Null
  }

  /**
   * `getConfig` over explicit state: the selected entry `sel` (absent when
   * the cursor is on the core), then the core when `useCore`, then the
   * default; a `None` value counts as absent at every level.
   */
  function Read(core: Entry, sel: Option<Entry>, key: string, default: Value, required: bool, useCore: bool): (r: Result<Value>)
    ensures sel.Some? && Found(sel.value, key) ==> r == Ok(sel.value[key])
    ensures !(sel.Some? && Found(sel.value, key)) && useCore && Found(core, key) ==> r == Ok(core[key])
    ensures r.Failure? <==>
              required && default == Null && !(sel.Some? && Found(sel.value, key)) && !(useCore && Found(core, key))
    ensures !(sel.Some? && Found(sel.value, key)) && !(useCore && Found(core, key)) && default != Null ==> r == Ok(default)
    ensures !(sel.Some? && Found(sel.value, key)) && !(useCore && Found(core, key)) && default == Null && !required ==> r == Ok(Null)
  {
    if sel.Some? && Found(sel.value, key) then Ok(sel.value[key])
    else if useCore && Found(core, key) then Ok(core[key])
    else if default != Null then Ok(default)
    else if required then Failure("no value given for " + key)
    else Ok(Null)
  }

  /**
   * Reading with the core as fallback sees only what the entry laid over the
   * core holds, provided every value of the core still stands.
   */
  lemma ReadFollowsMergedView(core: Entry, e: Entry, core': Entry, e': Entry,
                              key: string, default: Value, required: bool)
    requires ConfigTidy.Merged(core', e') == ConfigTidy.Merged(core, e)
    requires e'.Keys <= e.Keys
    requires forall k :: k in core ==> k in core' && core'[k] == core[k]
    requires forall k :: k in core' && k !in core && k in e ==> core'[k] == e[k]
    ensures Read(core', Some(e'), key, default, required, true) == Read(core, Some(e), key, default, required, true)
  {
    assert key in ConfigTidy.Merged(core, e) <==> key in ConfigTidy.Merged(core', e');
    if key in e && key !in e' {
      assert ConfigTidy.Merged(core', e')[key] == ConfigTidy.Merged(core, e)[key];
      assert key in core' && core'[key] == e[key];
    } else if key in e' {
      assert ConfigTidy.Merged(core', e')[key] == ConfigTidy.Merged(core, e)[key];
      assert e'[key] == e[key];
    }
  }

  /** Tidying the stack never changes what a configuration reads with the core as fallback. */
  lemma TidyKeepsReads(core: Entry, stack: seq<Entry>, j: int, key: string, default: Value, required: bool)
    requires 0 <= j < |stack|
    ensures Read(ConfigTidy.TidyCore(core, stack), Some(ConfigTidy.TidyStack(core, stack)[j]), key, default, required, true)
         == Read(core, Some(stack[j]), key, default, required, true)
  {
    ConfigTidy.TidyKeepsCore(core, stack);
    ConfigTidy.TidyNewCoreKeys(core, stack);
    ConfigTidy.TidyKeepsMergedView(core, stack, j);
    ReadFollowsMergedView(core, stack[j], ConfigTidy.TidyCore(core, stack), ConfigTidy.TidyStack(core, stack)[j],
                          key, default, required);
  }

  /** A core write shows through every configuration that does not override it, and the store evicts every override. */
  lemma CoreWriteSeenByAll(core: Entry, stack: seq<Entry>, key: string, val: Value, j: int)
    requires 0 <= j < |stack| && val != Null
    ensures Read(core[key := val], Some(Evict(stack, key)[j]), key, Null, true, true) == Ok(val)
  {
  }

  // ----- the base name each configuration is labelled with -----

  /** The base name of a configuration's `eca_cfgName`, if it has a string one. */
  function CfgName(core: Entry, e: Entry): Option<string>
  {
    match Read(core, Some(e), CfgNameKey, Null, true, true)
    case Ok(Str(p)) => Some(Basename(p))
    case _ => None
  }

  /** The base name of configuration `j`. */
  function NameAt(core: Entry, stack: seq<Entry>, j: int): Option<string>
    requires 0 <= j < |stack|
  {
    CfgName(core, stack[j])
  }

  /** The first configuration from `i` on without a usable `eca_cfgName`, or the stack size. */
  function FirstUnnamedFrom(core: Entry, stack: seq<Entry>, i: nat): (r: nat)
    requires i <= |stack|
    ensures i <= r <= |stack|
    ensures forall j :: i <= j < r ==> NameAt(core, stack, j).Some?
    ensures r < |stack| ==> NameAt(core, stack, r).None?
    decreases |stack| - i
  {
    if i == |stack| then i
    else if NameAt(core, stack, i).None? then i
    else FirstUnnamedFrom(core, stack, i + 1)
  }

  function FirstUnnamed(core: Entry, stack: seq<Entry>): nat
  {
    FirstUnnamedFrom(core, stack, 0)
  }

  predicate AllNamed(core: Entry, stack: seq<Entry>)
  {
    FirstUnnamed(core, stack) == |stack|
  }

  /** The base names of all configurations. */
  function NameList(core: Entry, stack: seq<Entry>): (r: seq<string>)
    requires AllNamed(core, stack)
    ensures |r| == |stack|
    ensures forall j :: 0 <= j < |stack| ==> NameAt(core, stack, j) == Some(r[j])
  {
    seq(|stack|, j requires 0 <= j < |stack| => NameAt(core, stack, j).value)
  }

  /** The first `n` configurations with `eca_uniqueName` set to their base name. */
  function NamedUpTo(core: Entry, stack: seq<Entry>, n: nat): (r: seq<Entry>)
    requires n <= FirstUnnamed(core, stack)
    ensures |r| == |stack|
  {
    seq(|stack|, j requires 0 <= j < |stack| =>
      if j < n then stack[j][UniqueNameKey := Str(NameAt(core, stack, j).value)] else stack[j])
  }

  /** Labelling configuration `n` extends the labelled prefix by one. */
  lemma NamedUpToStep(core: Entry, stack: seq<Entry>, n: nat)
    requires n < FirstUnnamed(core, stack) && n < |stack|
    ensures NamedUpTo(core, stack, n)[n] == stack[n]
    ensures NamedUpTo(core, stack, n)[n := stack[n][UniqueNameKey := Str(NameAt(core, stack, n).value)]]
         == NamedUpTo(core, stack, n + 1)
  {
  }

  /** A named configuration at or before the first unnamed one lies before it. */
  lemma NamedBeforeFirstUnnamed(core: Entry, stack: seq<Entry>, n: nat)
    requires n <= FirstUnnamed(core, stack) && n < |stack| && CfgName(core, stack[n]).Some?
    ensures n < FirstUnnamed(core, stack)
  {
  }

  /** Configurations from `n` on are not yet labelled. */
  lemma NamedUpToAt(core: Entry, stack: seq<Entry>, n: nat)
    requires n <= FirstUnnamed(core, stack) && n < |stack|
    ensures NamedUpTo(core, stack, n)[n] == stack[n]
  {
  }

  /** Once every configuration is labelled, the labels are the base names. */
  lemma NamedUpToAll(core: Entry, stack: seq<Entry>)
    requires AllNamed(core, stack)
    ensures NamedUpTo(core, stack, |stack|) == WithLabels(stack, NameList(core, stack))
    ensures Labels(WithLabels(stack, NameList(core, stack))) == NameList(core, stack)
  {
  }

  /** Every configuration with `eca_uniqueName` set to the given label. */
  function WithLabels(stack: seq<Entry>, labels: seq<string>): (r: seq<Entry>)
    requires |labels| == |stack|
    ensures |r| == |stack|
    ensures forall j :: 0 <= j < |r| ==> r[j] == stack[j][UniqueNameKey := Str(labels[j])]
  {
    seq(|stack|, j requires 0 <= j < |stack| => stack[j][UniqueNameKey := Str(labels[j])])
  }

  /** Relabelling one configuration of a labelled stack is labelling it with the new label in the first place. */
  lemma RelabelOne(stack: seq<Entry>, labels: seq<string>, j: int, newLabel: string)
    requires |labels| == |stack| && 0 <= j < |stack|
    ensures WithLabels(stack, labels)[j := WithLabels(stack, labels)[j][UniqueNameKey := Str(newLabel)]]
         == WithLabels(stack, labels[j := newLabel])
  {
    var l := WithLabels(stack, labels);
    var r := WithLabels(stack, labels[j := newLabel]);
    forall k | 0 <= k < |stack| ensures l[j := l[j][UniqueNameKey := Str(newLabel)]][k] == r[k] {
      if k == j {
        assert stack[j][UniqueNameKey := Str(labels[j])][UniqueNameKey := Str(newLabel)]
            == stack[j][UniqueNameKey := Str(newLabel)];
      }
    }
  }

  /**
   * The stack the relabelling leaves: unchanged when the labels are
   * distinct, otherwise with only the last configuration numbered.
   */
  lemma RelabelledStack(stack: seq<Entry>, labels: seq<string>, distinct: bool)
    requires |labels| == |stack|
    requires distinct <==> UniqueNames.Distinct(labels)
    ensures distinct ==> WithLabels(stack, labels) == WithLabels(stack, UniqueNames.RelabelAsWritten(labels))
    ensures !distinct ==> |stack| > 0
    ensures !distinct ==>
              var l := WithLabels(stack, labels);
              l[|stack| - 1 := l[|stack| - 1][UniqueNameKey := Str(UniqueNames.NumberedLabel(|stack| - 1))]]
              == WithLabels(stack, UniqueNames.RelabelAsWritten(labels))
  {
    if !distinct {
      UniqueNames.DistinctShort(labels);
      RelabelOne(stack, labels, |stack| - 1, UniqueNames.NumberedLabel(|stack| - 1));
    }
  }

  /** The labels of a fully labelled stack. */
  function Labels(stack: seq<Entry>): (r: seq<string>)
    requires forall j :: 0 <= j < |stack| ==> UniqueNameKey in stack[j] && stack[j][UniqueNameKey].Str?
    ensures |r| == |stack|
  {
    seq(|stack|, j requires 0 <= j < |stack| => stack[j][UniqueNameKey].s)
  }

  /** The labels given are the labels read back. */
  lemma LabelsOfWithLabels(stack: seq<Entry>, labels: seq<string>)
    requires |labels| == |stack|
    ensures forall j :: 0 <= j < |stack| ==>
              UniqueNameKey in WithLabels(stack, labels)[j] && WithLabels(stack, labels)[j][UniqueNameKey].Str?
    ensures Labels(WithLabels(stack, labels)) == labels
  {
  }

  /** Reading `eca_uniqueName` with configuration `j` selected gives its label. */
  lemma LabelRead(core: Entry, stack: seq<Entry>, j: int)
    requires forall i :: 0 <= i < |stack| ==> UniqueNameKey in stack[i] && stack[i][UniqueNameKey].Str?
    requires 0 <= j < |stack|
    ensures Read(core, Some(stack[j]), UniqueNameKey, Null, true, true) == Ok(Str(Labels(stack)[j]))
  {
  }

  /** The parameters of a JSON object with `true`/`false` in any case normalised. */
  function Normalised(params: Entry): (r: Entry)
    ensures r.Keys == params.Keys
  {
    map k | k in params :: ConfigText.NormaliseFlag(params[k])
  }

  /**
   * The core and stack `load_json_string` leaves with cursor `cur`: every
   * normalised parameter is written into the core (and evicted from every
   * configuration) or into the selected configuration.
   */
  function JsonLoaded(core: Entry, stack: seq<Entry>, cur: int, params: Entry): (Entry, seq<Entry>)
    requires -1 <= cur < |stack|
  {
    if cur == -1 then (core + Normalised(params), seq(|stack|, j requires 0 <= j < |stack| => stack[j] - params.Keys))
    else (core, stack[cur := stack[cur] + Normalised(params)])
  }

  /** The core and stack `setConfig(key, val)` leaves with cursor `cur`. */
  function ConfigSet(core: Entry, stack: seq<Entry>, cur: int, key: string, val: Value): (r: (Entry, seq<Entry>))
    requires -1 <= cur < |stack|
    ensures |r.1| == |stack|
  {
    if cur == -1 then (core[key := val], Evict(stack, key)) else (core, stack[cur := stack[cur][key := val]])
  }

  /** A second `setConfig` of the same key overrides the first entirely. */
  lemma ConfigSetTwice(core: Entry, stack: seq<Entry>, cur: int, key: string, first: Value, second: Value)
    requires -1 <= cur < |stack|
    ensures var once := ConfigSet(core, stack, cur, key, first);
            ConfigSet(once.0, once.1, cur, key, second) == ConfigSet(core, stack, cur, key, second)
  {
    if cur == -1 {
      var twice := Evict(Evict(stack, key), key);
      assert forall j :: 0 <= j < |stack| ==> twice[j] == Evict(stack, key)[j];
      assert twice == Evict(stack, key);
      assert core[key := first][key := second] == core[key := second];
    } else {
      var once := stack[cur := stack[cur][key := first]];
      assert once[cur][key := second] == stack[cur][key := second];
      assert once[cur := once[cur][key := second]] == stack[cur := stack[cur][key := second]];
    }
  }

  /** The decoded pieces of an inline array. */
  function ParsedPieces(text: string, parse: string -> Entry): seq<Entry>
  {
    seq(|ConfigText.InlinePieces(text)|, j requires 0 <= j < |ConfigText.InlinePieces(text)| =>
      parse(ConfigText.InlinePieces(text)[j]))
  }

  /**
   * The stack the inline-array load leaves: one blank configuration pushed
   * per piece, then configurations 0, 1, ... loaded with the pieces in turn.
   */
  function InlineLoaded(stack: seq<Entry>, params: seq<Entry>): (r: seq<Entry>)
  {
    seq(|stack| + |params|, j requires 0 <= j < |stack| + |params| =>
      (if j < |stack| then stack[j] else map[]) + (if j < |params| then Normalised(params[j]) else map[]))
  }

  /** The part of `m` whose keys are in `keys`. */
  function Restrict(m: Entry, keys: set<string>): Entry
  {
    map k | k in m && k in keys :: m[k]
  }

  lemma AddOne(m: Entry, norm: Entry, done: set<string>, key: string)
    requires key in norm
    ensures (m + Restrict(norm, done))[key := norm[key]] == m + Restrict(norm, done + {key})
  {
  }

  /** The credential names as a set. */
  function CredentialKeys(): set<string>
  {
    set c | c in Credentials
  }

  /** The core with every credential blanked out. */
  function BlankCredentials(core: Entry): (r: Entry)
    ensures forall k :: k in r <==> k in core || k in CredentialKeys()
    ensures forall k :: k in CredentialKeys() ==> r[k] == Scrubbed
    ensures forall k :: k in core && k !in CredentialKeys() ==> r[k] == core[k]
  {
    core[Credentials[0] := Scrubbed][Credentials[1] := Scrubbed][Credentials[2] := Scrubbed][Credentials[3] := Scrubbed]
  }

  /** Every configuration with its credentials deleted. */
  function StripCredentials(stack: seq<Entry>): (r: seq<Entry>)
    ensures |r| == |stack|
  {
    Evict(Evict(Evict(Evict(stack, Credentials[0]), Credentials[1]), Credentials[2]), Credentials[3])
  }

  lemma StripCredentialsAt(stack: seq<Entry>, j: int)
    requires 0 <= j < |stack|
    ensures StripCredentials(stack)[j] == stack[j] - CredentialKeys()
  {
    assert CredentialKeys() == {Credentials[0], Credentials[1], Credentials[2], Credentials[3]};
  }

  /** Two dictionaries agree on `key` when both lack it or both hold the same value. */
  predicate AgreeOn(m: Entry, m': Entry, key: string)
  {
    (key in m <==> key in m') && (key in m ==> m[key] == m'[key])
  }

  /** A read sees only the key it asks for. */
  lemma ReadSeesOnlyItsKey(core: Entry, e: Entry, core': Entry, e': Entry, key: string,
                           default: Value, required: bool)
    requires AgreeOn(core, core', key) && AgreeOn(e, e', key)
    ensures Read(core', Some(e'), key, default, required, true) == Read(core, Some(e), key, default, required, true)
  {
  }

  /**
   * Blanking the credentials of a labelled stack keeps every configuration's
   * `eca_cfgName`, so the tidying inside the serialisation labels them all again.
   */
  lemma BlankingKeepsNames(c1: Entry, d1: seq<Entry>, labels: seq<string>)
    requires AllNamed(c1, d1) && |labels| == |d1|
    ensures AllNamed(ConfigTidy.TidyCore(BlankCredentials(c1), StripCredentials(WithLabels(d1, labels))),
                     ConfigTidy.TidyStack(BlankCredentials(c1), StripCredentials(WithLabels(d1, labels))))
  {
    var c2 := BlankCredentials(c1);
    var st2 := StripCredentials(WithLabels(d1, labels));
    var c3 := ConfigTidy.TidyCore(c2, st2);
    var st3 := ConfigTidy.TidyStack(c2, st2);
    forall j | 0 <= j < |st3| ensures NameAt(c3, st3, j).Some? {
      BlankedNameAt(c1, d1, labels, j);
    }
    NamedEverywhere(c3, st3);
  }

  /** One configuration of the blanked, stripped and tidied stack is still named. */
  lemma BlankedNameAt(c1: Entry, d1: seq<Entry>, labels: seq<string>, j: int)
    requires AllNamed(c1, d1) && |labels| == |d1|
    requires 0 <= j < |ConfigTidy.TidyStack(BlankCredentials(c1), StripCredentials(WithLabels(d1, labels)))|
    ensures NameAt(ConfigTidy.TidyCore(BlankCredentials(c1), StripCredentials(WithLabels(d1, labels))),
                   ConfigTidy.TidyStack(BlankCredentials(c1), StripCredentials(WithLabels(d1, labels))), j).Some?
  {
    var c2 := BlankCredentials(c1);
    var st2 := StripCredentials(WithLabels(d1, labels));
    var c3 := ConfigTidy.TidyCore(c2, st2);
    var st3 := ConfigTidy.TidyStack(c2, st2);
    assert CfgNameKey !in CredentialKeys();
    TidyKeepsReads(c2, st2, j, CfgNameKey, Null, true);
    StripCredentialsAt(WithLabels(d1, labels), j);
    assert st2[j] == d1[j][UniqueNameKey := Str(labels[j])] - CredentialKeys();
    assert AgreeOn(c1, c2, CfgNameKey) && AgreeOn(d1[j], st2[j], CfgNameKey);
    ReadSeesOnlyItsKey(c1, d1[j], c2, st2[j], CfgNameKey, Null, true);
    SameReadSameName(c1, d1[j], c3, st3[j]);
    assert NameAt(c1, d1, j).Some?;
  }

  /** A stack whose every configuration is named is all named. */
  lemma NamedEverywhere(core: Entry, stack: seq<Entry>)
    requires forall j :: 0 <= j < |stack| ==> NameAt(core, stack, j).Some?
    ensures AllNamed(core, stack)
  {
  }

  /** Configurations that read the same `eca_cfgName` have the same base name. */
  lemma SameReadSameName(core: Entry, e: Entry, core': Entry, e': Entry)
    requires Read(core', Some(e'), CfgNameKey, Null, true, true) == Read(core, Some(e), CfgNameKey, Null, true, true)
    ensures CfgName(core', e') == CfgName(core, e)
  {
  }

  /** The stack `tidyConfigStack` leaves when every configuration is named: tidied, then labelled as written. */
  function LabelledTidy(core: Entry, stack: seq<Entry>): (r: seq<Entry>)
    requires AllNamed(ConfigTidy.TidyCore(core, stack), ConfigTidy.TidyStack(core, stack))
    ensures |r| == |stack|
  {
    var d := ConfigTidy.TidyStack(core, stack);
    WithLabels(d, UniqueNames.RelabelAsWritten(NameList(ConfigTidy.TidyCore(core, stack), d)))
  }

  /**
   * The core and stack the scrub serialises: the store tidied and labelled,
   * its credentials blanked in the core and deleted from every
   * configuration, then tidied and labelled again.
   */
  function ScrubbedStore(core: Entry, stack: seq<Entry>): (r: (Entry, seq<Entry>))
    requires AllNamed(ConfigTidy.TidyCore(core, stack), ConfigTidy.TidyStack(core, stack))
    ensures |r.1| == |stack|
  {
    var c1 := ConfigTidy.TidyCore(core, stack);
    var d1 := ConfigTidy.TidyStack(core, stack);
    BlankingKeepsNames(c1, d1, UniqueNames.RelabelAsWritten(NameList(c1, d1)));
    var c2 := BlankCredentials(c1);
    var st2 := StripCredentials(LabelledTidy(core, stack));
    (ConfigTidy.TidyCore(c2, st2), LabelledTidy(c2, st2))
  }

  /**
   * The scrub changes no configuration's reading of any parameter other
   * than the credentials and the label `eca_uniqueName`.
   */
  lemma ScrubKeepsReads(core: Entry, stack: seq<Entry>, j: int, key: string, default: Value, required: bool)
    requires AllNamed(ConfigTidy.TidyCore(core, stack), ConfigTidy.TidyStack(core, stack))
    requires 0 <= j < |stack| && key !in CredentialKeys() && key != UniqueNameKey
    ensures Read(ScrubbedStore(core, stack).0, Some(ScrubbedStore(core, stack).1[j]), key, default, required, true)
         == Read(core, Some(stack[j]), key, default, required, true)
  {
    var c1 := ConfigTidy.TidyCore(core, stack);
    var d1 := ConfigTidy.TidyStack(core, stack);
    var st1 := LabelledTidy(core, stack);
    BlankingKeepsNames(c1, d1, UniqueNames.RelabelAsWritten(NameList(c1, d1)));
    var c2 := BlankCredentials(c1);
    var st2 := StripCredentials(st1);
    var c3 := ConfigTidy.TidyCore(c2, st2);
    var d3 := ConfigTidy.TidyStack(c2, st2);
    var st3 := LabelledTidy(c2, st2);
    // the second labelling touches only the label
    ReadSeesOnlyItsKey(c3, d3[j], c3, st3[j], key, default, required);
    // the second tidy keeps every read
    TidyKeepsReads(c2, st2, j, key, default, required);
    // blanking and stripping touch only the credentials
    StripCredentialsAt(st1, j);
    ReadSeesOnlyItsKey(c1, st1[j], c2, st2[j], key, default, required);
    // the first labelling touches only the label
    ReadSeesOnlyItsKey(c1, d1[j], c1, st1[j], key, default, required);
    // the first tidy keeps every read
    TidyKeepsReads(core, stack, j, key, default, required);
  }

  /**
   * The restore step of the scrub as written: each saved core key (the
   * empty one excepted) goes back through `setCoreConfig`, which also
   * deletes it from every configuration.
   */
  function RestoredCore(core: Entry, saved: Entry): Entry
  {
    core + (saved - {""})
  }

  function RestoredStackAsWritten(stack: seq<Entry>, saved: Entry): (r: seq<Entry>)
    ensures |r| == |stack|
  {
    seq(|stack|, j requires 0 <= j < |stack| => stack[j] - (saved.Keys - {""}))
  }

  /**
   * The restore as written loses a configuration's override of a saved core
   * key: afterwards the configuration reads the core's value instead of its own.
   */
  lemma RestoreAsWrittenDropsOverride(core: Entry, stack: seq<Entry>, saved: Entry, j: int, key: string)
    requires 0 <= j < |stack| && key != "" && key in saved && saved[key] != Null
    requires Found(stack[j], key) && stack[j][key] != saved[key]
    ensures Read(core, Some(stack[j]), key, Null, true, true) == Ok(stack[j][key])
    ensures Read(RestoredCore(core, saved), Some(RestoredStackAsWritten(stack, saved)[j]), key, Null, true, true)
         == Ok(saved[key])
  {
  }

  /** With one configuration overriding `threads`, the restore as written changes what it reads. */
  lemma RestoreAsWrittenExample()
    ensures var saved := map["threads" := Str("2")];
            var stack := [map["threads" := Str("8")]];
            Read(saved, Some(stack[0]), "threads", Null, true, true) == Ok(Str("8")) &&
            Read(RestoredCore(saved, saved), Some(RestoredStackAsWritten(stack, saved)[0]), "threads", Null, true, true)
              == Ok(Str("2"))
  {
    var saved := map["threads" := Str("2")];
    var stack := [map["threads" := Str("8")]];
    RestoreAsWrittenDropsOverride(saved, stack, saved, 0, "threads");
  }

  /**
   * The evidently intended restore writes the saved values into the core
   * only, as the MapReduce helper's copy does: every configuration then
   * reads, for every key but the credentials, what it read before the
   * restore, since the core already held those saved values.
   */
  lemma RestoreAsIntendedKeepsReads(core: Entry, stack: seq<Entry>, saved: Entry, j: int, key: string,
                                    default: Value, required: bool)
    requires 0 <= j < |stack| && key !in CredentialKeys()
    requires forall k :: k in saved && k != "" && k !in CredentialKeys() ==> k in core && core[k] == saved[k]
    ensures Read(RestoredCore(core, saved), Some(stack[j]), key, default, required, true)
         == Read(core, Some(stack[j]), key, default, required, true)
  {
    assert AgreeOn(core, RestoredCore(core, saved), key);
    ReadSeesOnlyItsKey(core, stack[j], RestoredCore(core, saved), stack[j], key, default, required);
  }

  /**
   * What the serialisation inside the scrub sees: the credentials blanked in
   * the core and absent from every configuration, and every other core
   * value as the first tidying left it.
   */
  lemma ScrubSnapshotFacts(c1: Entry, c2: Entry, st2: seq<Entry>, c3: Entry, st3: seq<Entry>)
    requires c2 == BlankCredentials(c1)
    requires forall j, k :: 0 <= j < |st2| && k in st2[j] ==> k !in CredentialKeys()
    requires c3 == ConfigTidy.TidyCore(c2, st2)
    requires AllNamed(c3, ConfigTidy.TidyStack(c2, st2))
    requires st3 == WithLabels(ConfigTidy.TidyStack(c2, st2),
                               UniqueNames.RelabelAsWritten(NameList(c3, ConfigTidy.TidyStack(c2, st2))))
    ensures forall c :: c in CredentialKeys() ==> c in c3 && c3[c] == Scrubbed
    ensures forall k :: k in c1 && k !in CredentialKeys() ==> k in c3 && c3[k] == c1[k]
    ensures forall j, k :: 0 <= j < |st3| && k in st3[j] ==> k !in CredentialKeys()
  {
    ScrubCoreKeeps(c1, c2, st2, c3);
    var d := ConfigTidy.TidyStack(c2, st2);
    ConfigTidy.TidyKeepsCore(c2, st2);
    LabelledKeysFree(st2, d, UniqueNames.RelabelAsWritten(NameList(c3, d)), st3);
  }

  /** Tidying the blanked core keeps every credential blanked and every other value. */
  lemma ScrubCoreKeeps(c1: Entry, c2: Entry, st2: seq<Entry>, c3: Entry)
    requires c2 == BlankCredentials(c1)
    requires c3 == ConfigTidy.TidyCore(c2, st2)
    ensures forall c :: c in CredentialKeys() ==> c in c3 && c3[c] == Scrubbed
    ensures forall k :: k in c1 && k !in CredentialKeys() ==> k in c3 && c3[k] == c1[k]
  {
    ConfigTidy.TidyKeepsCore(c2, st2);
  }

  /** Labelling entries whose keys come from credential-free entries adds no credential. */
  lemma LabelledKeysFree(st2: seq<Entry>, d: seq<Entry>, labels: seq<string>, st3: seq<Entry>)
    requires forall j, k :: 0 <= j < |st2| && k in st2[j] ==> k !in CredentialKeys()
    requires |d| == |st2| && forall j :: 0 <= j < |st2| ==> d[j].Keys <= st2[j].Keys
    requires |labels| == |d| && st3 == WithLabels(d, labels)
    ensures forall j, k :: 0 <= j < |st3| && k in st3[j] ==> k !in CredentialKeys()
  {
    assert UniqueNameKey !in CredentialKeys();
    forall j, k | 0 <= j < |st3| && k in st3[j] ensures k !in CredentialKeys() {
      if k != UniqueNameKey {
        assert k in d[j];
      }
    }
  }

  /**
   * What the restore at the end of a scrub leaves behind: every key of the
   * tidied core `c1` is back in the core with its value (except `savedAs`),
   * a credential `c1` lacked stays blanked, and no entry keeps a key of `c1`.
   */
  lemma ScrubRestoreFacts(c1: Entry, c3: Entry, st3: seq<Entry>, filename: string)
    requires forall c :: c in CredentialKeys() ==> c in c3 && c3[c] == Scrubbed
    requires forall k :: k in c1 && k !in CredentialKeys() ==> k in c3 && c3[k] == c1[k]
    requires forall j, c :: 0 <= j < |st3| && c in CredentialKeys() ==> c !in st3[j]
    ensures var saved := map["" := Str("")] + c1;
            var core := RestoredCore(c3, saved)[SavedAsKey := Str(filename)];
            var stack := Evict(RestoredStackAsWritten(st3, saved), SavedAsKey);
            (forall k :: k in c1 && k != SavedAsKey ==> k in core && core[k] == c1[k]) &&
            (forall c :: c in CredentialKeys() && c !in c1 ==> c in core && core[c] == Scrubbed) &&
            SavedAsKey in core && core[SavedAsKey] == Str(filename) &&
            (forall j, k :: 0 <= j < |stack| && k in stack[j] ==>
               k != SavedAsKey && k !in CredentialKeys() && (k in c1 ==> k == ""))
  {
    var saved := map["" := Str("")] + c1;
    var core := RestoredCore(c3, saved)[SavedAsKey := Str(filename)];
    var restored := RestoredStackAsWritten(st3, saved);
    forall k | k in c1 && k != SavedAsKey
      ensures k in core && core[k] == c1[k]
    {
      if k == "" {
        assert "" !in CredentialKeys();
      }
    }
    forall j, k | 0 <= j < |restored| && k in restored[j]
      ensures k !in CredentialKeys() && (k in c1 ==> k == "")
    {
      assert restored[j] == st3[j] - (saved.Keys - {""});
    }
  }

  /** A lone line starting with `[` makes a parameter file an inline array. */
  predicate InlineArrayFile(lines: seq<string>)
  {
    |lines| == 1 && Strip(lines[0]) != [] && Strip(lines[0])[0] == '['
  }

  /**
   * The outcome of reading the parameter file `filename` (with lines
   * `lines`) into the store `core0`/`stack0`/`cur0` when several
   * configurations are allowed, as the new store and the result.
   */
  ghost predicate ParameterFileLoaded(filename: string, lines: seq<string>, fileExists: string -> bool,
                                      parse: string -> Entry, core0: Entry, stack0: seq<Entry>, cur0: int,
                                      core: Entry, stack: seq<Entry>, cur: int, r: Result<nat>)
    requires -1 <= cur0 < |stack0|
  {
    var names := ConfigText.ListedPaths(lines, fileExists, true);
    var badnames := ConfigText.ListedPaths(lines, fileExists, false);
    var based := core0[CoreBaseNameKey := Str(Paths.TidyPath(filename))];
    if InlineArrayFile(lines) then
      r == Ok(|ConfigText.InlinePieces(Strip(lines[0]))|) && core == core0 &&
      stack == InlineLoaded(stack0, ParsedPieces(Strip(lines[0]), parse))
    else if |names| > 1 && |badnames| > 0 then
      r == Failure("failed to open config file(s):" + JoinNames(badnames)) &&
      core == based && stack == stack0 && cur == cur0
    else if |names| > 1 then
      r.Ok? ==> r.value == |names|
    else
      var written := ConfigSet(if |names| == 1 then based else core0, stack0 + [map[]], cur0,
                           CfgNameKey, Str(Paths.TidyPath(filename)));
      r == Ok(1) && cur == cur0 &&
      (core, stack) == JsonLoaded(written.0, written.1, cur0, parse(ConfigText.StrippedText(lines)))
  }

  datatype Snapshot = Snapshot(core: Entry, entries: seq<Entry>)

  class EnsembleStore {
    var core: Entry
    var stack: seq<Entry>
    var current: int

    /** The cursor selects the core (-1) or an entry of the stack. */
    ghost predicate Valid()
      reads this
    {
      -1 <= current < |stack|
    }

    constructor ()
      ensures Valid()
      ensures core == map[VersionKey := Str("0.2")] && stack == [] && current == -1
    {
      core := map[VersionKey := Str("0.2")];
      stack := [];
      current := -1;
    }

    /** The selected entry, absent when the cursor is on the core. */
    function Selected(): Option<Entry>
      reads this
      requires Valid()
    {
      if current == -1 then None else Some(stack[current])
    }

    /** `getConfig`: the lookup of `Read` on the selected entry; the core is always consulted when it is selected. */
    function GetConfig(key: string, default: Value, required: bool, includeCoreCfg: bool): (r: Result<Value>)
      reads this
      requires Valid()
      ensures r == Read(core, Selected(), key, default, required, includeCoreCfg || current == -1)
    {
      Read(core, Selected(), key, default, required, includeCoreCfg || current == -1)
    }

    /** `pushConfig`: a new empty configuration on top of the stack, not selected. */
    method PushConfig()
      requires Valid()
      modifies this
      ensures Valid()
      ensures stack == old(stack) + [map[]] && core == old(core) && current == old(current)
    {
      stack := stack + [map[]];
    }

    /** `selectConfig`: moves the cursor and returns the selected dictionary. */
    method SelectConfig(n: int) returns (cfg: Entry)
      requires -1 <= n < |stack|
      modifies this
      ensures Valid() && current == n
      ensures core == old(core) && stack == old(stack)
      ensures cfg == if n == -1 then core else stack[n]
    {
      current := n;
      cfg := if n == -1 then core else stack[n];
    }

    /** `setCoreConfig`: writes the core and deletes the key from every configuration. */
    method SetCoreConfig(key: string, val: Value)
      requires Valid()
      modifies this
      ensures Valid() && current == old(current)
      ensures core == old(core)[key := val]
      ensures stack == Evict(old(stack), key)
    {
      core := core[key := val];
      for i := 0 to |stack|
        invariant |stack| == |old(stack)| && current == old(current)
        invariant core == old(core)[key := val]
        invariant forall j :: 0 <= j < i ==> stack[j] == old(stack)[j] - {key}
        invariant forall j :: i <= j < |stack| ==> stack[j] == old(stack)[j]
      {
        if key in stack[i] {
          stack := stack[i := stack[i] - {key}];
        }
      }
    }

    /** `setConfig`: writes the selected configuration, or the core (with eviction) when the core is selected. */
    method SetConfig(key: string, val: Value)
      requires Valid()
      modifies this
      ensures Valid() && current == old(current)
      ensures old(current) == -1 ==> core == old(core)[key := val] && stack == Evict(old(stack), key)
      ensures old(current) != -1 ==>
                core == old(core) && stack == old(stack)[current := old(stack)[current][key := val]]
      ensures val != Null ==> GetConfig(key, Null, true, false) == Ok(val)
    {
      if current == -1 {
        SetCoreConfig(key, val);
      } else {
        stack := stack[current := stack[current][key := val]];
      }
    }
 
    /** How many configurations carry the label of configuration `n`, selecting each in turn. */
    method CountMatches(n: int) returns (matches: nat)
      requires Valid() && 0 <= n < |stack|
      requires forall j :: 0 <= j < |stack| ==> UniqueNameKey in stack[j] && stack[j][UniqueNameKey].Str?
      modifies this
      ensures Valid() && core == old(core) && stack == old(stack) && current == |stack| - 1
      ensures matches == UniqueNames.Count(Labels(stack), Labels(stack)[n])
    {
      ghost var names := Labels(stack);
      var selected := SelectConfig(n);
      LabelRead(core, stack, n);
      var check := GetConfig(UniqueNameKey, Null, true, true);
      matches := 0;
      for nn := 0 to |stack|
        invariant Valid() && core == old(core) && stack == old(stack)
        invariant current == if nn == 0 then n else nn - 1
        invariant matches == UniqueNames.Count(names[..nn], names[n])
      {
        selected := SelectConfig(nn);
        LabelRead(core, stack, nn);
        var other := GetConfig(UniqueNameKey, Null, true, true);
        assert names[..nn + 1][..nn] == names[..nn];
        if other == check {
          matches := matches + 1;
        }
      }
      assert names[..|stack|] == names;
    }

    /**
     * The duplicate test of `tidyConfigStack`: each configuration's label is
     * compared with every configuration's label, so the last configuration
     * is left selected.
     */
    method NamesUnique() returns (allUnique: bool)
      requires Valid()
      requires forall j :: 0 <= j < |stack| ==> UniqueNameKey in stack[j] && stack[j][UniqueNameKey].Str?
      modifies this
      ensures Valid() && core == old(core) && stack == old(stack)
      ensures current == if |stack| == 0 then old(current) else |stack| - 1
      ensures allUnique <==> UniqueNames.Distinct(Labels(stack))
    {
      ghost var names := Labels(stack);
      allUnique := true;
      for n := 0 to |stack|
        invariant Valid() && core == old(core) && stack == old(stack)
        invariant current == if n == 0 then old(current) else |stack| - 1
        invariant allUnique <==> forall m :: 0 <= m < n ==> UniqueNames.Count(names, names[m]) == 1
      {
        var matches := CountMatches(n);
        allUnique := allUnique && matches == 1;
      }
      UniqueNames.CountsDecideDistinct(names);
    }

    /**
     * The labelling loop of `tidyConfigStack`: each configuration in turn is
     * selected and given the base name of its `eca_cfgName`; one without a
     * string name raises, leaving it selected.
     */
    method LabelWithBaseNames() returns (ok: bool)
      requires Valid()
      modifies this
      ensures Valid() && core == old(core) && |stack| == |old(stack)|
      ensures ok <==> AllNamed(core, old(stack))
      ensures ok ==> stack == WithLabels(old(stack), NameList(core, old(stack)))
      ensures ok ==> (forall j :: 0 <= j < |stack| ==> UniqueNameKey in stack[j] && stack[j][UniqueNameKey].Str?) &&
                     Labels(stack) == NameList(core, old(stack))
      ensures ok ==> current == if |stack| == 0 then old(current) else |stack| - 1
      ensures !ok ==> current == FirstUnnamed(core, old(stack)) &&
                      stack == NamedUpTo(core, old(stack), FirstUnnamed(core, old(stack)))
    {
      ghost var d := stack;
      var n := 0;
      while n < |stack|
        invariant 0 <= n <= |stack| == |d| && core == old(core)
        invariant n <= FirstUnnamed(core, d)
        invariant stack == NamedUpTo(core, d, n)
        invariant current == if n == 0 then old(current) else n - 1
        invariant Valid()
      {
        NamedUpToAt(core, d, n);
        var named := LabelOne(n);
        if !named {
          assert NameAt(core, d, n).None?;
          assert FirstUnnamed(core, d) == n;
          return false;
        }
        NamedBeforeFirstUnnamed(core, d, n);
        NamedUpToStep(core, d, n);
        n := n + 1;
      }
      NamedUpToAll(core, d);
      ok := true;
    }

    /**
     * One round of the labelling loop: configuration `n` is selected and, when
     * its `eca_cfgName` is a string, given that name's base name.
     */
    method LabelOne(n: nat) returns (named: bool)
      requires Valid() && n < |stack|
      modifies this
      ensures Valid() && core == old(core) && current == n
      ensures named <==> CfgName(core, old(stack)[n]).Some?
      ensures named ==> stack == old(stack)[n := old(stack)[n][UniqueNameKey := Str(CfgName(core, old(stack)[n]).value)]]
      ensures !named ==> stack == old(stack)
    {
      var selected := SelectConfig(n);
      var cfgName := GetConfig(CfgNameKey, Null, true, true);
      if !(cfgName.Ok? && cfgName.value.Str?) {
        return false;
      }
      SetConfig(UniqueNameKey, Str(Basename(cfgName.value.s)));
      named := true;
    }

    /**
     * The relabelling loop of `tidyConfigStack`: it writes `cfg<k>` for every
     * k through the selected configuration, which it never changes, so only
     * the last configuration ends relabelled.
     */
    method RelabelSelected()
      requires Valid() && |stack| > 0 && current == |stack| - 1
      requires forall j :: 0 <= j < |stack| ==> UniqueNameKey in stack[j] && stack[j][UniqueNameKey].Str?
      modifies this
      ensures Valid() && core == old(core) && current == old(current) && |stack| == |old(stack)|
      ensures stack == old(stack)[current := old(stack)[current][UniqueNameKey := Str(UniqueNames.NumberedLabel(current))]]
    {
      ghost var last := stack[current];
      for k := 0 to |stack|
        invariant Valid() && core == old(core) && current == old(current) && |stack| == |old(stack)|
        invariant k == 0 ==> stack == old(stack)
        invariant k > 0 ==> stack == old(stack)[current := last[UniqueNameKey := Str(UniqueNames.NumberedLabel(k - 1))]]
      {
        SetConfig(UniqueNameKey, Str(UniqueNames.NumberedLabel(k)));
        assert stack[current] == last[UniqueNameKey := Str(UniqueNames.NumberedLabel(k))];
      }
    }

    /** The two passes of `tidyConfigStack` shared with the MapReduce helper. */
    method TidyPasses()
      requires Valid()
      modifies this
      ensures Valid() && current == old(current) && |stack| == |old(stack)|
      ensures core == ConfigTidy.TidyCore(old(core), old(stack))
      ensures stack == ConfigTidy.TidyStack(old(core), old(stack))
    {
      var dropped := ConfigTidy.DropRedundantEntries(core, stack);
      var newCore, newStack := ConfigTidy.PromoteCommonKeys(core, dropped);
      core, stack := newCore, newStack;
    }

    /**
     * The labelling part of `tidyConfigStack`: labelling, the duplicate test
     * and, on a collision, the relabelling as the source performs it; the
     * cursor is restored afterwards. A configuration without a string
     * `eca_cfgName` raises, leaving the labels given so far and that
     * configuration selected.
     */
    method LabelConfigs() returns (ok: bool)
      requires Valid()
      modifies this
      ensures Valid() && core == old(core) && |stack| == |old(stack)|
      ensures ok <==> AllNamed(core, old(stack))
      ensures ok ==> current == old(current) &&
                     stack == WithLabels(old(stack), UniqueNames.RelabelAsWritten(NameList(core, old(stack))))
      ensures !ok ==> current == FirstUnnamed(core, old(stack)) &&
                      stack == NamedUpTo(core, old(stack), FirstUnnamed(core, old(stack)))
    {
      var save := current;
      ok := LabelWithBaseNames();
      if !ok {
        return;
      }
      NumberOnCollision(old(stack), NameList(core, old(stack)));
      var selected := SelectConfig(save);
    }

    /**
     * The duplicate test of `tidyConfigStack` and, on a collision, the
     * relabelling as the source performs it.
     */
    method NumberOnCollision(ghost d: seq<Entry>, ghost labels: seq<string>)
      requires Valid() && |labels| == |d| && stack == WithLabels(d, labels)
      modifies this
      ensures Valid() && core == old(core)
      ensures stack == WithLabels(d, UniqueNames.RelabelAsWritten(labels))
    {
      LabelsOfWithLabels(d, labels);
      var allUnique := NamesUnique();
      RelabelledStack(d, labels, allUnique);
      if !allUnique {
        RelabelSelected();
      }
    }

    /**
     * `tidyConfigStack`: the two passes shared with the MapReduce helper,
     * then the labelling.
     */
    method TidyConfigStack() returns (ok: bool)
      requires Valid()
      modifies this
      ensures Valid() && |stack| == |old(stack)|
      ensures core == ConfigTidy.TidyCore(old(core), old(stack))
      ensures ok <==> AllNamed(core, ConfigTidy.TidyStack(old(core), old(stack)))
      ensures ok ==>
                var d := ConfigTidy.TidyStack(old(core), old(stack));
                current == old(current) &&
                stack == WithLabels(d, UniqueNames.RelabelAsWritten(NameList(core, d)))
      ensures !ok ==>
                var d := ConfigTidy.TidyStack(old(core), old(stack));
                current == FirstUnnamed(core, d) && stack == NamedUpTo(core, d, FirstUnnamed(core, d))
    {
      TidyPasses();
      ok := LabelConfigs();
    }
 
    /**
     * `load_json_string` on already decoded parameters: every parameter, with
     * its boolean spelling normalised, is written through `setConfig`.
     */
    method LoadJsonString(params: Entry)
      requires Valid()
      modifies this
      ensures Valid() && current == old(current) && |stack| == |old(stack)|
      ensures (core, stack) == JsonLoaded(old(core), old(stack), old(current), params)
    {
      var todo := params.Keys;
      ghost var done: set<string> := {};
      ghost var norm := Normalised(params);
      ghost var target := if current == -1 then core else stack[current];
      assert target + Restrict(norm, done) == target;
      while todo != {}
        invariant done <= params.Keys && todo == params.Keys - done
        invariant Valid() && current == old(current) && |stack| == |old(stack)|
        invariant current == -1 ==> core == target + Restrict(norm, done)
        invariant current == -1 ==> forall j :: 0 <= j < |stack| ==> stack[j] == old(stack)[j] - done
        invariant current != -1 ==> core == old(core) && stack == old(stack)[current := stack[current]]
        invariant current != -1 ==> stack[current] == target + Restrict(norm, done)
        decreases todo
      {
        var key :| key in todo;
        SetConfig(key, ConfigText.NormaliseFlag(params[key]));
        AddOne(target, norm, done, key);
        done := done + {key};
        todo := todo - {key};
      }
      assert Restrict(norm, done) == norm;
      ghost var want := JsonLoaded(old(core), old(stack), old(current), params);
      if current == -1 {
        assert done == params.Keys;
        assert |want.1| == |stack| && forall j :: 0 <= j < |stack| ==> stack[j] == want.1[j];
      }
      assert core == want.0 && stack == want.1;
    }

    /**
     * The inline `[{...},{...}]` form of `load_commented_json`: one empty
     * configuration is pushed per piece, then configurations 0, 1, ... are
     * selected in turn and loaded with the pieces' parameters (`parse`
     * stands for the JSON decoder).
     */
    method LoadInlineArray(text: string, parse: string -> Entry) returns (nConfigs: nat)
      requires Valid()
      modifies this
      ensures Valid() && core == old(core)
      ensures nConfigs == |ConfigText.InlinePieces(text)|
      ensures |stack| == |old(stack)| + nConfigs
      ensures stack == InlineLoaded(old(stack), ParsedPieces(text, parse))
      ensures current == if nConfigs == 0 then old(current) else nConfigs - 1
    {
      var jsonstrings := ConfigText.SplitInlineArray(text);
      nConfigs := |jsonstrings|;
      ghost var base := stack;
      for n := 0 to nConfigs
        invariant Valid() && core == old(core) && current == old(current)
        invariant stack == base + seq(n, _ => map[])
      {
        PushConfig();
      }
      ghost var blank := stack;
      LoadEach(jsonstrings, parse);
      ghost var want := InlineLoaded(old(stack), ParsedPieces(text, parse));
      assert forall j :: 0 <= j < |stack| ==> blank[j] == if j < |old(stack)| then old(stack)[j] else map[];
      assert |want| == |stack| && forall j :: 0 <= j < |stack| ==> stack[j] == want[j];
    }

    /** The second loop of the inline-array load: configuration `n` is selected and loaded with piece `n`, in turn. */
    method LoadEach(jsonstrings: seq<string>, parse: string -> Entry)
      requires Valid() && |jsonstrings| <= |stack|
      modifies this
      ensures Valid() && core == old(core) && |stack| == |old(stack)|
      ensures current == if jsonstrings == [] then old(current) else |jsonstrings| - 1
      ensures forall j :: 0 <= j < |stack| ==>
                stack[j] == old(stack)[j] + (if j < |jsonstrings| then Normalised(parse(jsonstrings[j])) else map[])
    {
      for n := 0 to |jsonstrings|
        invariant Valid() && core == old(core) && |stack| == |old(stack)|
        invariant current == if n == 0 then old(current) else n - 1
        invariant forall j :: 0 <= j < |stack| ==>
                    stack[j] == old(stack)[j] + (if j < n then Normalised(parse(jsonstrings[j])) else map[])
      {
        var selected := SelectConfig(n);
        LoadJsonString(parse(jsonstrings[n]));
      }
    }

    /**
     * `load_commented_json`: a string starting with `{` is one JSON
     * configuration, one starting with `[` an inline array; anything else
     * names a parameter file (its lines are `readLines`), read as below when
     * several configurations are allowed and otherwise as the one
     * configuration its comment-stripped text holds. The result is the
     * configuration count.
     */
    method LoadCommentedJson(filename: string, multiconfigOK: bool, readLines: string -> seq<string>,
                             fileExists: string -> bool, parse: string -> Entry)
      returns (r: Result<nat>)
      requires Valid()
      modifies this
      decreases if multiconfigOK then 3 else 0
      ensures Valid() && |stack| >= |old(stack)|
      ensures StartsWith(filename, "{") ==>
                r == Ok(1) && current == old(current) &&
                (core, stack) == JsonLoaded(old(core), old(stack), old(current), parse(filename))
      ensures !StartsWith(filename, "{") && StartsWith(filename, "[") ==>
                r == Ok(|ConfigText.InlinePieces(filename)|) && core == old(core) &&
                stack == InlineLoaded(old(stack), ParsedPieces(filename, parse))
      ensures !StartsWith(filename, "{") && !StartsWith(filename, "[") && !multiconfigOK ==>
                r == Ok(1) && current == old(current) &&
                (core, stack) == JsonLoaded(old(core), old(stack), old(current),
                                            parse(ConfigText.StrippedText(readLines(filename))))
      ensures !StartsWith(filename, "{") && !StartsWith(filename, "[") && multiconfigOK ==>
                ParameterFileLoaded(filename, readLines(filename), fileExists, parse,
                                    old(core), old(stack), old(current), core, stack, current, r)
    {
      if StartsWith(filename, "{") {
        LoadJsonString(parse(filename));
        return Ok(1);
      } else if StartsWith(filename, "[") {
        var nConfigs := LoadInlineArray(filename, parse);
        return Ok(nConfigs);
      } else if multiconfigOK {
        r := LoadParameterFile(filename, readLines, fileExists, parse);
        return;
      }
      var configStr := ConfigText.JoinStrippedLines(readLines(filename));
      LoadJsonString(parse(configStr));
      r := Ok(1);
    }

    /**
     * `load_commented_json` on a parameter file when several configurations
     * are allowed: a lone line starting with `[` is an inline array; a file
     * naming more than one existing file loads each as a configuration of
     * the batch, and raises when it also names missing ones; otherwise the
     * file's comment-stripped text is one new configuration, named after the
     * file. Naming an existing file records the file as `coreBaseName`.
     */
    method LoadParameterFile(filename: string, readLines: string -> seq<string>,
                             fileExists: string -> bool, parse: string -> Entry)
      returns (r: Result<nat>)
      requires Valid()
      modifies this
      decreases 2
      ensures Valid() && |stack| >= |old(stack)|
      ensures ParameterFileLoaded(filename, readLines(filename), fileExists, parse,
                                  old(core), old(stack), old(current), core, stack, current, r)
    {
      var lines := readLines(filename);
      var form, namedExisting := ConfigText.ClassifyConfigLines(lines, fileExists);
      if form.InlineArray? {
        var nConfigs := LoadInlineArray(form.text, parse);
        return Ok(nConfigs);
      }
      if namedExisting {
        core := core[CoreBaseNameKey := Str(Paths.TidyPath(filename))];
      }
      match form {
        case MissingFiles(badnames) =>
          return Failure("failed to open config file(s):" + JoinNames(badnames));
        case FileList(names) =>
          r := LoadFileList(names, readLines, fileExists, parse);
        case SingleConfig =>
          LoadNamedConfig(filename, lines, parse);
          r := Ok(1);
      }
    }

    /**
     * A parameter file holding one configuration: a blank configuration is
     * pushed, the selection is named after the file, and the file's
     * comment-stripped text is loaded into the selection.
     */
    method LoadNamedConfig(filename: string, lines: seq<string>, parse: string -> Entry)
      requires Valid()
      modifies this
      ensures Valid() && |stack| == |old(stack)| + 1 && current == old(current)
      ensures var written := ConfigSet(old(core), old(stack) + [map[]], old(current),
                                       CfgNameKey, Str(Paths.TidyPath(filename)));
              (core, stack) == JsonLoaded(written.0, written.1, old(current), parse(ConfigText.StrippedText(lines)))
    {
      PushConfig();
      SetConfig(CfgNameKey, Str(Paths.TidyPath(filename)));
      ghost var written := ConfigSet(old(core), old(stack) + [map[]], old(current), CfgNameKey, Str(Paths.TidyPath(filename)));
      assert core == written.0 && stack == written.1;
      var configStr := ConfigText.JoinStrippedLines(lines);
      LoadJsonString(parse(configStr));
    }

    /**
     * The batch a list of parameter files makes: one new configuration per
     * file, each loaded from its file and named after it, then the stack
     * tidied; a configuration left without a name raises.
     */
    method LoadFileList(names: seq<string>, readLines: string -> seq<string>,
                        fileExists: string -> bool, parse: string -> Entry)
      returns (r: Result<nat>)
      requires Valid()
      modifies this
      decreases 1
      ensures Valid() && |stack| >= |old(stack)|
      ensures r.Ok? ==> r.value == |names|
    {
      var nConfigs := |names|;
      for n := 0 to nConfigs
        invariant Valid() && |stack| >= |old(stack)| + n
      {
        PushConfig();
      }
      for n := 0 to nConfigs
        invariant Valid() && |stack| >= |old(stack)| + nConfigs
      {
        var selected := SelectConfig(n);
        var loaded := LoadCommentedJson(names[n], false, readLines, fileExists, parse);
        SetConfig(CfgNameKey, Str(Paths.TidyPath(names[n])));
      }
      var ok := TidyConfigStack();
      if !ok {
        return Failure("no value given for " + CfgNameKey);
      }
      return Ok(nConfigs);
    }

    /** The four `setCoreConfig(..., "xxxx")` calls of the scrub. */
    method ScrubCredentials()
      requires Valid()
      modifies this
      ensures Valid() && current == old(current)
      ensures core == BlankCredentials(old(core))
      ensures stack == StripCredentials(old(stack))
    {
      SetCoreConfig(Credentials[0], Scrubbed);
      SetCoreConfig(Credentials[1], Scrubbed);
      SetCoreConfig(Credentials[2], Scrubbed);
      SetCoreConfig(Credentials[3], Scrubbed);
    }

    /**
     * The state part of `getConfigToString` and `getConfigAsRList`: the stack
     * is tidied, then the core and the selected configuration (all of them
     * when `cfgNum` is negative) are what gets written out.
     */
    method Serialise(cfgNum: int) returns (r: Result<Snapshot>)
      requires Valid() && cfgNum < |stack|
      modifies this
      ensures Valid() && |stack| == |old(stack)|
      ensures core == ConfigTidy.TidyCore(old(core), old(stack))
      ensures r.Ok? <==> AllNamed(core, ConfigTidy.TidyStack(old(core), old(stack)))
      ensures r.Ok? ==>
                var d := ConfigTidy.TidyStack(old(core), old(stack));
                current == old(current) &&
                stack == WithLabels(d, UniqueNames.RelabelAsWritten(NameList(core, d))) &&
                r.value == Snapshot(core, if cfgNum >= 0 then [stack[cfgNum]] else stack)
    {
      var ok := TidyConfigStack();
      if !ok {
        return Failure("no value given for " + CfgNameKey);
      }
      r := Ok(Snapshot(core, if cfgNum >= 0 then [stack[cfgNum]] else stack));
    }

    /** The restore loop of the scrub: every saved key but the empty one goes back through `setCoreConfig`. */
    method RestoreCore(saved: Entry)
      requires Valid()
      modifies this
      ensures Valid() && current == old(current)
      ensures core == RestoredCore(old(core), saved)
      ensures stack == RestoredStackAsWritten(old(stack), saved)
    {
      var todo := saved.Keys;
      ghost var done: set<string> := {};
      ghost var live := saved - {""};
      assert old(core) + Restrict(live, done) == old(core);
      while todo != {}
        invariant done <= saved.Keys && todo == saved.Keys - done
        invariant Valid() && current == old(current) && |stack| == |old(stack)|
        invariant core == old(core) + Restrict(live, done)
        invariant forall j :: 0 <= j < |stack| ==> stack[j] == old(stack)[j] - (done - {""})
        decreases todo
      {
        var key :| key in todo;
        if |key| > 0 {
          SetCoreConfig(key, saved[key]);
          AddOne(old(core), live, done, key);
        } else {
          assert Restrict(live, done + {key}) == Restrict(live, done);
        }
        done := done + {key};
        todo := todo - {key};
      }
      assert Restrict(live, done) == live;
      assert done == saved.Keys;
      assert stack == RestoredStackAsWritten(old(stack), saved);
    }

    /**
     * The first half of `scrubAndPreserveJobConfig`: the stack is tidied, the
     * core saved (under an extra empty key), the credentials blanked and the
     * configuration serialised, which tidies again.
     */
    method ScrubAndSerialise(cfgNum: int) returns (r: Result<Snapshot>, saveConfig: Entry)
      requires Valid() && cfgNum < |stack|
      modifies this
      ensures Valid() && |stack| == |old(stack)|
      ensures r.Ok? <==>
                AllNamed(ConfigTidy.TidyCore(old(core), old(stack)), ConfigTidy.TidyStack(old(core), old(stack)))
      ensures r.Ok? ==> current == old(current) && saveConfig == map["" := Str("")] + ConfigTidy.TidyCore(old(core), old(stack))
      ensures r.Ok? ==> r.value == Snapshot(core, if cfgNum >= 0 then [stack[cfgNum]] else stack)
      ensures r.Ok? ==> (core, stack) == ScrubbedStore(old(core), old(stack))
      ensures r.Ok? ==>
                (forall c :: c in CredentialKeys() ==> c in core && core[c] == Scrubbed) &&
                (forall j, c :: 0 <= j < |stack| && c in CredentialKeys() ==> c !in stack[j])
      ensures r.Ok? ==>
                var c1 := ConfigTidy.TidyCore(old(core), old(stack));
                forall k :: k in c1 && k !in CredentialKeys() ==> k in core && core[k] == c1[k]
    {
      saveConfig := map[];
      label ScrubStart:
      var ok := TidyConfigStack();
      if !ok {
        return Failure("no value given for " + CfgNameKey), saveConfig;
      }
      ghost var c1 := core;
      ghost var d1 := ConfigTidy.TidyStack(old(core), old(stack));
      saveConfig := map["" := Str("")] + core;
      ScrubCredentials();
      ghost var c2 := core;
      ghost var st2 := stack;
      forall j, k | 0 <= j < |st2| && k in st2[j] ensures k !in CredentialKeys() {
        StripCredentialsAt(old@ScrubStart(stack), j);
      }
      BlankingKeepsNames(c1, d1, UniqueNames.RelabelAsWritten(NameList(c1, d1)));
      r := Serialise(cfgNum);
      if r.Failure? {
        return;
      }
      ScrubSnapshotFacts(c1, c2, st2, core, stack);
    }

    /**
     * `scrubAndPreserveJobConfig`: the scrub and serialisation above, then the
     * saved core restored through `setCoreConfig` and `savedAs` set to the
     * file name. Writing the text out is not modelled; the result is what it
     * holds.
     */
    method ScrubAndPreserveJobConfig(filename: string, cfgNum: int) returns (r: Result<Snapshot>)
      requires Valid() && cfgNum < |stack|
      modifies this
      ensures Valid() && |stack| == |old(stack)|
      ensures r.Ok? <==>
                AllNamed(ConfigTidy.TidyCore(old(core), old(stack)), ConfigTidy.TidyStack(old(core), old(stack)))
      ensures r.Ok? ==> current == old(current)
      ensures r.Ok? ==>
                (forall c :: c in CredentialKeys() ==> c in r.value.core && r.value.core[c] == Scrubbed) &&
                (forall e, c :: e in r.value.entries && c in CredentialKeys() ==> c !in e)
      ensures r.Ok? ==>
                var c1 := ConfigTidy.TidyCore(old(core), old(stack));
                forall k :: k in c1 && k !in CredentialKeys() ==> k in r.value.core && r.value.core[k] == c1[k]
      ensures r.Ok? ==>
                var scrubbed := ScrubbedStore(old(core), old(stack));
                r.value == Snapshot(scrubbed.0, if cfgNum >= 0 then [scrubbed.1[cfgNum]] else scrubbed.1)
      ensures r.Ok? ==>
                var scrubbed := ScrubbedStore(old(core), old(stack));
                var saved := map["" := Str("")] + ConfigTidy.TidyCore(old(core), old(stack));
                core == RestoredCore(scrubbed.0, saved)[SavedAsKey := Str(filename)] &&
                stack == Evict(RestoredStackAsWritten(scrubbed.1, saved), SavedAsKey)
      ensures r.Ok? ==>
                var c1 := ConfigTidy.TidyCore(old(core), old(stack));
                (forall k :: k in c1 && k != SavedAsKey ==> k in core && core[k] == c1[k]) &&
                (forall c :: c in CredentialKeys() && c !in c1 ==> c in core && core[c] == Scrubbed) &&
                SavedAsKey in core && core[SavedAsKey] == Str(filename)
      ensures r.Ok? ==>
                var c1 := ConfigTidy.TidyCore(old(core), old(stack));
                forall j, k :: 0 <= j < |stack| && k in stack[j] ==>
                  k != SavedAsKey && k !in CredentialKeys() && (k in c1 ==> k == "")
    {
      var saveConfig;
      r, saveConfig := ScrubAndSerialise(cfgNum);
      if r.Failure? {
        return;
      }
      ghost var c3, st3 := core, stack;
      assert (c3, st3) == ScrubbedStore(old(core), old(stack));
      RestoreCore(saveConfig);
      SetCoreConfig(SavedAsKey, Str(filename));
      ScrubRestoreFacts(ConfigTidy.TidyCore(old(core), old(stack)), c3, st3, filename);
    }
  }

  /** The error text listing missing parameter files, each preceded by a space. */
  function JoinNames(names: seq<string>): string
  {
    if names == [] then "" else JoinNames(names[..|names| - 1]) + " " + names[|names| - 1]
  }
}
