/** Filling a parameter payload with the descriptors' default values. */
module Defaults {
  import opened Json
  import opened Variables

  /** A parameter payload. Go passes the map by reference and `ApplyDefaults`
      adds entries to it in place, so the map lives in an object. */
  class Parameters {
    var entries: map<string, JValue>

    constructor (entries: map<string, JValue>)
      ensures this.entries == entries
    {
      this.entries := entries;
    }
  }

  /** The defaults a list of descriptors contributes to an empty payload:
      for each field name, the default of the first descriptor with that
      name whose default is not nil. */
  function DefaultsOf(vars: seq<BrokerVariable>): map<string, JValue>
    decreases |vars|
  {
    if vars == [] then map[]
    else
      var k := |vars| - 1;
      var earlier := DefaultsOf(vars[..k]);
      if vars[k].fieldName !in earlier && vars[k].defaultValue != JNull
      then earlier[vars[k].fieldName := vars[k].defaultValue]
      else earlier
  }

  /** `ApplyDefaults`: for each descriptor in order, a field that is still
      missing and has a non-nil default gets that default. */
  method ApplyDefaults(parameters: Parameters, variables: seq<BrokerVariable>)
    modifies parameters
    ensures parameters.entries == DefaultsOf(variables) + old(parameters.entries)
  {
    ghost var initial := parameters.entries;
    var i := 0;
    while i < |variables|
      invariant 0 <= i <= |variables|
      invariant parameters.entries == DefaultsOf(variables[..i]) + initial
    {
      var v := variables[i];
      assert variables[..i + 1][..i] == variables[..i];
      if v.fieldName !in parameters.entries && v.defaultValue != JNull {
        parameters.entries := parameters.entries[v.fieldName := v.defaultValue];
      } else if v.fieldName in initial && v.fieldName !in DefaultsOf(variables[..i]) && v.defaultValue != JNull {
        // the new default of DefaultsOf is hidden by the payload's own value
        DefaultHidden(DefaultsOf(variables[..i]), initial, v.fieldName, v.defaultValue);
      }
      i := i + 1;
    }
    assert variables[..|variables|] == variables;
  }

  /** A default for a key the payload already has changes nothing. */
  lemma DefaultHidden(defaults: map<string, JValue>, payload: map<string, JValue>, k: string, d: JValue)
    requires k in payload
    ensures defaults[k := d] + payload == defaults + payload
  {
  }

  /** A field gets a default exactly when some descriptor with that name has
      a non-nil default. */
  lemma {:induction false} DefaultsOfKeys(vars: seq<BrokerVariable>, n: string)
    ensures n in DefaultsOf(vars) <==> exists i :: 0 <= i < |vars| && vars[i].fieldName == n && vars[i].defaultValue != JNull
    decreases |vars|
  {
    if vars != [] {
      var k := |vars| - 1;
      DefaultsOfKeys(vars[..k], n);
      if n in DefaultsOf(vars[..k]) {
        var i :| 0 <= i < k && vars[..k][i].fieldName == n && vars[..k][i].defaultValue != JNull;
        assert vars[i] == vars[..k][i];
      }
      if exists i :: 0 <= i < |vars| && vars[i].fieldName == n && vars[i].defaultValue != JNull {
        var i :| 0 <= i < |vars| && vars[i].fieldName == n && vars[i].defaultValue != JNull;
        if i < k {
          assert vars[..k][i] == vars[i];
        }
      }
    }
  }

  /** The defaults are never nil and are given only under the descriptors'
      field names. */
  lemma {:induction false} DefaultsOfValues(vars: seq<BrokerVariable>)
    ensures forall n :: n in DefaultsOf(vars) ==> DefaultsOf(vars)[n] != JNull
    ensures DefaultsOf(vars).Keys <= FieldNames(vars)
    decreases |vars|
  {
    if vars != [] {
      var k := |vars| - 1;
      DefaultsOfValues(vars[..k]);
      forall n | n in FieldNames(vars[..k]) ensures n in FieldNames(vars) {
        var j :| 0 <= j < k && vars[..k][j].fieldName == n;
        assert vars[j].fieldName == n;
      }
      assert vars[k].fieldName in FieldNames(vars);
    }
  }

  /** The default a field gets comes from the first descriptor with that name
      and a non-nil default; later descriptors with the same name are ignored. */
  lemma {:induction false} FirstDefaultWins(vars: seq<BrokerVariable>, i: nat)
    requires i < |vars|
    requires vars[i].defaultValue != JNull
    requires forall j :: 0 <= j < i && vars[j].fieldName == vars[i].fieldName ==> vars[j].defaultValue == JNull
    ensures vars[i].fieldName in DefaultsOf(vars)
    ensures DefaultsOf(vars)[vars[i].fieldName] == vars[i].defaultValue
    decreases |vars|
  {
    var k := |vars| - 1;
    var n := vars[i].fieldName;
    if i < k {
      forall j | 0 <= j < i && vars[..k][j].fieldName == n ensures vars[..k][j].defaultValue == JNull {
        assert vars[..k][j] == vars[j];
      }
      assert vars[..k][i] == vars[i];
      FirstDefaultWins(vars[..k], i);
    } else {
      DefaultsOfKeys(vars[..k], n);
    }
  }

  /** A key the payload already has keeps its value. */
  lemma NeverOverwrites(parameters: map<string, JValue>, vars: seq<BrokerVariable>, k: string)
    requires k in parameters
    ensures (DefaultsOf(vars) + parameters)[k] == parameters[k]
  {
  }

  /** Afterwards every descriptor with a non-nil default has its field present. */
  lemma EveryDefaultPresent(parameters: map<string, JValue>, vars: seq<BrokerVariable>, i: nat)
    requires i < |vars|
    requires vars[i].defaultValue != JNull
    ensures vars[i].fieldName in DefaultsOf(vars) + parameters
  {
    DefaultsOfKeys(vars, vars[i].fieldName);
  }

  /** A missing field is filled from the first descriptor with that name and
      a non-nil default. */
  lemma MissingFieldGetsFirstDefault(parameters: map<string, JValue>, vars: seq<BrokerVariable>, i: nat)
    requires i < |vars|
    requires vars[i].fieldName !in parameters
    requires vars[i].defaultValue != JNull
    requires forall j :: 0 <= j < i && vars[j].fieldName == vars[i].fieldName ==> vars[j].defaultValue == JNull
    ensures vars[i].fieldName in DefaultsOf(vars) + parameters
    ensures (DefaultsOf(vars) + parameters)[vars[i].fieldName] == vars[i].defaultValue
  {
    FirstDefaultWins(vars, i);
  }

  /** Keys no descriptor names are left exactly as they were. */
  lemma UnnamedKeysUntouched(parameters: map<string, JValue>, vars: seq<BrokerVariable>, k: string)
    requires forall i :: 0 <= i < |vars| ==> vars[i].fieldName != k
    ensures k in DefaultsOf(vars) + parameters <==> k in parameters
    ensures k in parameters ==> (DefaultsOf(vars) + parameters)[k] == parameters[k]
  {
    DefaultsOfKeys(vars, k);
  }

  /** Applying the defaults a second time changes nothing. */
  lemma ApplyTwice(parameters: map<string, JValue>, vars: seq<BrokerVariable>)
    ensures DefaultsOf(vars) + (DefaultsOf(vars) + parameters) == DefaultsOf(vars) + parameters
  {
  }
}
