/** Sequences of mutations applied to a `FakeEnvironment`, and what a raw
    lookup sees afterwards: the most recent `SetVar` or `RemoveVar` of that
    key decides, and operations on other keys do not matter. */
module Replay {
  import opened Wrappers
  import opened Utf8
  import opened Environment

  /** One mutation through the `Environment` capability. */
  datatype Op =
    | Set(key: OsString, value: OsString)
    | Remove(key: OsString)

  function Apply(env: FakeEnvironment, op: Op): FakeEnvironment {
    match op
    case Set(key, value) => SetVar(env, key, value)
    case Remove(key) => RemoveVar(env, key)
  }

  /** The environment after applying `ops` in order, first to last. */
  function Run(env: FakeEnvironment, ops: seq<Op>): FakeEnvironment
    decreases |ops|
  {
    if |ops| == 0 then env else Apply(Run(env, ops[..|ops| - 1]), ops[|ops| - 1])
  }

  /** Reference reading of `key` after `ops`, from the operations alone: the
      value the last operation on `key` leaves (`Some(Some(v))` after a set,
      `Some(None)` after a remove), or `None` when no operation touches it. */
  function LastWrite(ops: seq<Op>, key: OsString): Option<Option<OsString>>
    decreases |ops|
  {
    if |ops| == 0 then None
    else
      var op := ops[|ops| - 1];
      if op.key == key then Some(if op.Set? then Some(op.value) else None)
      else LastWrite(ops[..|ops| - 1], key)
  }

  /** A raw lookup after a run sees what the last operation on that key left,
      or the starting value when no operation touched it. */
  lemma {:induction false} RunReadsLastWrite(env: FakeEnvironment, ops: seq<Op>, key: OsString)
    ensures VarOs(Run(env, ops), key) ==
              match LastWrite(ops, key)
              case None => VarOs(env, key)
              case Some(v) => v
    decreases |ops|
  {
    if |ops| > 0 {
      RunReadsLastWrite(env, ops[..|ops| - 1], key);
    }
  }

  /** Running two sequences one after the other is running their
      concatenation. */
  lemma {:induction false} RunAppend(env: FakeEnvironment, first: seq<Op>, second: seq<Op>)
    ensures Run(env, first + second) == Run(Run(env, first), second)
    decreases |second|
  {
    if |second| > 0 {
      var all := first + second;
      assert all[..|all| - 1] == first + second[..|second| - 1];
      assert all[|all| - 1] == second[|second| - 1];
      RunAppend(env, first, second[..|second| - 1]);
    } else {
      assert first + second == first;
    }
  }

  /** Operations on different keys commute. */
  lemma ApplyCommutes(env: FakeEnvironment, a: Op, b: Op)
    requires a.key != b.key
    ensures Apply(Apply(env, a), b) == Apply(Apply(env, b), a)
  {
  }

  /** From a fresh environment, `Var` finds a key exactly when the last
      operation on it was a set, and then reads that set's value. */
  lemma FreshRunVar(ops: seq<Op>, key: OsString)
    ensures Var(Run(New(), ops), key) == Err(NotPresent) <==>
              LastWrite(ops, key).None? || LastWrite(ops, key).value.None?
    ensures forall text :: Var(Run(New(), ops), key) == Ok(text) <==>
              LastWrite(ops, key) == Some(Some(Encode(text)))
  {
    RunReadsLastWrite(New(), ops, key);
    forall text {
      VarOkIff(Run(New(), ops), key, text);
    }
  }
}
