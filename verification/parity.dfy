/** The behaviour the shared parity test suite demands of every `Environment`,
    stated for `FakeEnvironment` for all keys and values instead of for the
    random upper-case names the tests draw. */
module Parity {
  import opened Wrappers
  import opened Utf8
  import opened Environment

  /** The tests' sample of a non-UTF-8 value: "fo", a lone continuation byte,
      then "o". */
  const INVALID_UTF8: OsString := [0x66, 0x6F, 0x80, 0x6F]

  /** The sample value is rejected by the UTF-8 grammar: after the two ASCII
      characters, 0x80 cannot start a character. */
  lemma InvalidUtf8IsInvalid()
    ensures !ValidUtf8(INVALID_UTF8)
  {
  }

  /** A variable set to some text reads back as that text. */
  lemma AddedVariableCanBeRead(env: FakeEnvironment, key: OsString, value: string)
    ensures Var(SetVar(env, key, Encode(value)), key) == Ok(value)
  {
    VarOkIff(SetVar(env, key, Encode(value)), key, value);
  }

  /** A fresh environment has no variables: `Var` reports `NotPresent` and
      `VarOs` reports `None`, for every key. */
  lemma NonexistentVariableIsNotPresent(key: OsString)
    ensures Var(New(), key) == Err(NotPresent)
    ensures VarOs(New(), key) == None
  {
  }

  /** A variable set to bytes that are not UTF-8 makes `Var` fail with
      `NotUnicode`, carrying exactly those bytes. */
  lemma InvalidValueIsNotUnicode(env: FakeEnvironment, key: OsString, value: OsString)
    requires !ValidUtf8(value)
    ensures Var(SetVar(env, key, value), key) == Err(NotUnicode(value))
  {
  }

  /** The tests' instance: the sample value reads back as `NotUnicode` through
      `Var` and unchanged through `VarOs`. */
  lemma InvalidUtf8Sample(env: FakeEnvironment, key: OsString)
    ensures Var(SetVar(env, key, INVALID_UTF8), key) == Err(NotUnicode(INVALID_UTF8))
    ensures VarOs(SetVar(env, key, INVALID_UTF8), key) == Some(INVALID_UTF8)
  {
    InvalidUtf8IsInvalid();
  }

  /** Setting a variable twice keeps only the second value: the resulting
      environment is the one a single set of the second value gives. */
  lemma SettingTwiceOverwrites(env: FakeEnvironment, key: OsString, first: OsString, second: OsString)
    ensures SetVar(SetVar(env, key, first), key, second) == SetVar(env, key, second)
  {
  }

  /** Removing a variable that was just set leaves it absent: the set is
      undone as far as that key goes. */
  lemma RemovedVariableNoLongerExists(env: FakeEnvironment, key: OsString, value: OsString)
    ensures Var(RemoveVar(SetVar(env, key, value), key), key) == Err(NotPresent)
    ensures RemoveVar(SetVar(env, key, value), key) == RemoveVar(env, key)
  {
  }

  /** Removing an absent variable is not an error and changes nothing; so
      removing twice is the same as removing once. */
  lemma RemovingNonexistentVariableIsNoOp(env: FakeEnvironment, key: OsString)
    ensures VarOs(env, key) == None ==> RemoveVar(env, key) == env
    ensures RemoveVar(RemoveVar(env, key), key) == RemoveVar(env, key)
  {
  }

  /** Two instances do not share state: setting a variable in one leaves a
      fresh second instance without it. */
  lemma InstancesAreIsolated(key: OsString, value: OsString)
    ensures var first := SetVar(New(), key, value);
            var second := New();
            VarOs(first, key) == Some(value) && Var(second, key) == Err(NotPresent)
  {
  }
}
