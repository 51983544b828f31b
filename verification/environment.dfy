/** The `Environment` capability and its in-memory implementation,
    `FakeEnvironment`: an owned map from OS-string keys to OS-string values,
    read back either raw (`VarOs`) or as UTF-8 text (`Var`).

    Keys and values are Unix byte strings; the store is a value, so every
    operation returns the new store instead of mutating one in place. */
module Environment {
  import opened Wrappers
  import opened Utf8

  /** An OS string on Unix: an arbitrary byte string, not necessarily text. */
  type OsString = seq<uint8>

  /** Why `Var` gave no text: Rust's `std::env::VarError`. */
  datatype VarError =
    | NotPresent
    | NotUnicode(raw: OsString)

  /** A private set of environment variables. */
  datatype FakeEnvironment = FakeEnvironment(envVars: map<OsString, OsString>)

  /** Gets a variable's raw value, without any UTF-8 check. Absence is `None`,
      never an error. */
  function VarOs(env: FakeEnvironment, key: OsString): Option<OsString>
  {
    if key in env.envVars then Some(env.envVars[key]) else None
  }

  /** A fresh environment: no variable is set. */
  function New(): (env: FakeEnvironment)
    ensures forall key :: VarOs(env, key) == None
  {
    FakeEnvironment(map[])
  }

  /** Sets `key` to `value`, replacing any earlier value; no other variable
      changes and no check is made on either byte string. */
  function SetVar(env: FakeEnvironment, key: OsString, value: OsString): (env': FakeEnvironment)
    ensures VarOs(env', key) == Some(value)
    ensures forall other :: other != key ==> VarOs(env', other) == VarOs(env, other)
  {
    FakeEnvironment(env.envVars[key := value])
  }

  /** Removes `key` if it is set; a no-op otherwise. No other variable changes. */
  function RemoveVar(env: FakeEnvironment, key: OsString): (env': FakeEnvironment)
    ensures VarOs(env', key) == None
    ensures forall other :: other != key ==> VarOs(env', other) == VarOs(env, other)
    ensures VarOs(env, key) == None ==> env' == env
  {
    FakeEnvironment(env.envVars - {key})
  }

  /** Gets a variable as text: the text whose UTF-8 form is the raw value,
      `NotPresent` when the variable is unset, or `NotUnicode` carrying the
      raw value when it is not valid UTF-8. */
  function Var(env: FakeEnvironment, key: OsString): (r: Result<string, VarError>)
    ensures r.Ok? <==> VarOs(env, key).Some? && ValidUtf8(VarOs(env, key).value)
    ensures r.Ok? ==> VarOs(env, key) == Some(Encode(r.value))
    ensures r.Err? ==> r.error == if VarOs(env, key).None? then NotPresent else NotUnicode(VarOs(env, key).value)
  {
    if key in env.envVars then
      var val := env.envVars[key];
      match Decode(val)
      case Some(validUtf8) => Ok(validUtf8)
      case None => Err(NotUnicode(val))
    else
      Err(NotPresent)
  }

  /** `Var` gives text exactly when the raw value is that text's UTF-8 form. */
  lemma VarOkIff(env: FakeEnvironment, key: OsString, text: string)
    ensures Var(env, key) == Ok(text) <==> VarOs(env, key) == Some(Encode(text))
  {
    if Var(env, key).Ok? {
      EncodeInjective(text, Var(env, key).value);
    }
    DecodeEncode(text);
  }

  /** `Var` reports `NotPresent` exactly when the raw lookup finds nothing. */
  lemma VarNotPresentIff(env: FakeEnvironment, key: OsString)
    ensures Var(env, key) == Err(NotPresent) <==> VarOs(env, key) == None
  {
  }

  /** `Var` reports `NotUnicode(raw)` exactly when the raw value is `raw` and
      `raw` is not valid UTF-8. */
  lemma VarNotUnicodeIff(env: FakeEnvironment, key: OsString, raw: OsString)
    ensures Var(env, key) == Err(NotUnicode(raw)) <==> VarOs(env, key) == Some(raw) && !ValidUtf8(raw)
  {
  }

  /** Two environments that agree on every raw lookup are the same
      environment: `VarOs` observes the whole state. */
  lemma ObservationalEquality(a: FakeEnvironment, b: FakeEnvironment)
    requires forall key :: VarOs(a, key) == VarOs(b, key)
    ensures a == b
  {
    forall key ensures key in a.envVars <==> key in b.envVars {
      assert VarOs(a, key) == VarOs(b, key);
    }
    assert a.envVars.Keys == b.envVars.Keys;
    forall key | key in a.envVars ensures a.envVars[key] == b.envVars[key] {
      assert VarOs(a, key) == VarOs(b, key);
    }
  }
}
