/**
 * The environment listing of the debug endpoint (main.go, debugHandler).
 *
 * Each `KEY=VALUE` entry of the process environment is split at its first
 * `=`; entries without `=` are skipped; a later entry with the same key
 * overwrites an earlier one. Reading the process environment itself is
 * outside the model: the entries are a parameter.
 */
module Environment {
  import opened Wrappers

  /**
   * The key and value of one entry: everything before the first `=`, and
   * everything after it; `None` when the entry holds no `=`.
   */
  function SplitEntry(entry: string): (r: Option<(string, string)>)
    ensures r.None? <==> '=' !in entry
    ensures r.Some? ==> '=' !in r.value.0 && entry == r.value.0 + "=" + r.value.1
  {
    if entry == [] then None
    else if entry[0] == '=' then Some(([], entry[1..]))
    else
      match SplitEntry(entry[1..])
      case None => None
      case Some((key, value)) => Some(([entry[0]] + key, value))
  }

  /** The split is at the first `=`: the position a left-to-right scan stops at. */
  lemma SplitAtFirstEquals(entry: string, i: nat)
    requires i < |entry| && entry[i] == '='
    requires forall j :: 0 <= j < i ==> entry[j] != '='
    ensures SplitEntry(entry) == Some((entry[..i], entry[i + 1..]))
  {
    var (key, value) := SplitEntry(entry).value;
    assert entry[|key|] == '=';
    assert forall j :: 0 <= j < |key| ==> entry[j] == key[j];
    assert key == entry[..i];
    assert value == entry[i + 1..];
  }

  /** The map built from `entries`, processed from first to last. */
  function EnvMap(entries: seq<string>): map<string, string>
  {
    if entries == [] then map[]
    else
      var earlier := EnvMap(entries[..|entries| - 1]);
      match SplitEntry(entries[|entries| - 1])
      case None => earlier
      case Some((key, value)) => earlier[key := value]
  }

  /** No key of the map contains `=`. */
  lemma {:induction false} EnvKeysHaveNoEquals(entries: seq<string>)
    ensures forall key :: key in EnvMap(entries) ==> '=' !in key
  {
    if entries != [] {
      EnvKeysHaveNoEquals(entries[..|entries| - 1]);
    }
  }

  /** A key is in the map exactly when some entry splits to that key. */
  lemma {:induction false} EnvKeysFromEntries(entries: seq<string>, key: string)
    ensures key in EnvMap(entries) <==>
      exists i :: 0 <= i < |entries| && SplitEntry(entries[i]).Some? && SplitEntry(entries[i]).value.0 == key
  {
    if entries != [] {
      var init := entries[..|entries| - 1];
      EnvKeysFromEntries(init, key);
      if key in EnvMap(entries) && key !in EnvMap(init) {
        var last := |entries| - 1;
        assert SplitEntry(entries[last]).Some? && SplitEntry(entries[last]).value.0 == key;
      }
      if exists i :: 0 <= i < |entries| && SplitEntry(entries[i]).Some? && SplitEntry(entries[i]).value.0 == key {
        var i :| 0 <= i < |entries| && SplitEntry(entries[i]).Some? && SplitEntry(entries[i]).value.0 == key;
        if i < |entries| - 1 {
          assert entries[i] == init[i];
        }
      }
    }
  }

  /**
   * The value of a key comes from the last entry with that key: later
   * duplicates overwrite earlier ones.
   */
  lemma {:induction false} EnvLastEntryWins(entries: seq<string>, i: nat)
    requires i < |entries| && SplitEntry(entries[i]).Some?
    requires forall j :: i < j < |entries| ==>
      SplitEntry(entries[j]).None? || SplitEntry(entries[j]).value.0 != SplitEntry(entries[i]).value.0
    ensures SplitEntry(entries[i]).value.0 in EnvMap(entries)
    ensures EnvMap(entries)[SplitEntry(entries[i]).value.0] == SplitEntry(entries[i]).value.1
  {
    var last := |entries| - 1;
    if i < last {
      var init := entries[..last];
      assert init[i] == entries[i];
      forall j | i < j < |init|
        ensures SplitEntry(init[j]).None? || SplitEntry(init[j]).value.0 != SplitEntry(init[i]).value.0
      {
        assert init[j] == entries[j];
      }
      EnvLastEntryWins(init, i);
    }
  }

  /** An entry without `=` leaves the map as it was. */
  lemma EntryWithoutEqualsSkipped(entries: seq<string>, entry: string)
    requires '=' !in entry
    ensures EnvMap(entries + [entry]) == EnvMap(entries)
  {
    assert (entries + [entry])[..|entries|] == entries;
  }

  /**
   * Builds the environment map as the handler does: for each entry, scan for
   * the first `=` and store the text before it under the text after it.
   */
  method CollectEnvironment(environ: seq<string>) returns (envVars: map<string, string>)
    ensures envVars == EnvMap(environ)
  {
    envVars := map[];
    for k := 0 to |environ|
      invariant envVars == EnvMap(environ[..k])
    {
      var env := environ[k];
      assert environ[..k + 1][..k] == environ[..k];
      for i := 0 to |env|
        invariant forall j :: 0 <= j < i ==> env[j] != '='
        invariant envVars == EnvMap(environ[..k])
      {
        if env[i] == '=' {
          SplitAtFirstEquals(env, i);
          envVars := envVars[env[..i] := env[i + 1..]];
          break;
        }
      }
    }
    assert environ[..|environ|] == environ;
  }
}
