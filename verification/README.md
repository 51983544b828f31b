# env_wrapper in Dafny

A model of the `env_wrapper` crate's test double for the process environment.
The crate defines an `Environment` capability with four operations:

- `set_var` stores a value.
- `var` reads a value as UTF-8 text.
- `var_os` reads the raw value.
- `remove_var` deletes a value.

`FakeEnvironment` implements the capability with a private in-memory map from OS strings to OS strings. Tests use it in place of the real process environment.

The model has six modules:

- `Wrappers` holds `Option` and `Result`, mirroring Rust's.
- `Utf8` covers the text check that `var` performs. It holds:
  - the byte-string grammar of section 4 of RFC 3629 (`ValidUtf8`);
  - encoding of Unicode scalar values (`Encode`), with a decoder proved to invert it (`Decode`);
  - a table-driven validator (`Validate`) proved equivalent to the grammar.

  A Rust `String` is modelled as a Dafny `string`, which is a sequence of scalar values. Its bytes are `Encode` of it.
- `Environment` holds `FakeEnvironment`, `VarError` and the four operations. They are pure functions: `SetVar` and `RemoveVar` return the new store. Every contract is stated through the raw lookup `VarOs`. `ObservationalEquality` shows that `VarOs` sees the whole state.
- `Parity` restates the shared parity test suite for all keys and values.
- `Replay` covers sequences of `set_var`/`remove_var` calls. A reading is decided by the last operation on that key.
- `ConfigExample` is the crate's documented `get_config_location` usage.

Keys and values are Unix byte strings, `seq<uint8>`.

## Model

| member | source | states |
|---|---|---|
| Environment.New | src/lib.rs:241-246 | A new fake environment has no variables: `VarOs` is `None` for every key. |
| Environment.SetVar | src/lib.rs:250-253 | After a set, the raw lookup of the key is exactly the stored value, with no UTF-8 check. Every other key reads as before. |
| Environment.RemoveVar | src/lib.rs:269-271 | After a remove, the key is absent and every other key reads as before. Removing an absent key returns the same environment. |
| Environment.VarOs | src/lib.rs:265-267 | The raw lookup: Some of the stored bytes when the key is set, None otherwise, with no UTF-8 check. |
| Environment.Var | src/lib.rs:255-263 | `var` succeeds exactly when the key is set to valid UTF-8, and then returns the text with those bytes. Otherwise it fails with `NotPresent` when the key is unset, or with `NotUnicode` carrying the stored raw value. |
| Environment.VarOkIff | src/lib.rs:255-258 | `var` is `Ok(text)` exactly when `var_os` is `Some` of the UTF-8 form of `text`. |
| Environment.VarNotPresentIff | src/lib.rs:256-261 | `var` is `Err(NotPresent)` exactly when `var_os` is `None`. |
| Environment.VarNotUnicodeIff | src/lib.rs:256-259 | `var` is `Err(NotUnicode(raw))` exactly when `var_os` is `Some(raw)` and `raw` is not valid UTF-8. |
| Environment.ObservationalEquality | src/lib.rs:236-239 | Two fake environments that agree on every `var_os` lookup are equal. The derived `Eq` of the map-backed struct is the same equality. |
| Utf8.Decode | src/lib.rs:257-259 | `to_str` gives text exactly when the bytes match the RFC 3629 grammar, and the UTF-8 form of that text is the original bytes. |
| Utf8.Validate | src/lib.rs:257 | The width-by-lead-byte validation loop accepts exactly the byte strings of the RFC 3629 grammar. |
| Utf8.DecodeEncode | src/lib.rs:257-258 | Decoding the UTF-8 form of any text gives that text back. |
| Utf8.EncodeInjective | src/lib.rs:257-258 | Distinct texts have distinct UTF-8 forms, so the text `var` returns is unique. |
| Utf8.ValidUtf8IffEncoding | src/lib.rs:257-259 | A byte string passes the check exactly when it is the UTF-8 form of some text. |
| Utf8.ValidUtf8Step | src/lib.rs:257 | A byte string is valid exactly when the character of the width its lead byte announces is well formed and the rest is valid. |
| Utf8.ValidatorChecksMatchGrammar | src/lib.rs:257 | For bytes as long as the lead byte announces, the validator's second-byte range and continuation-byte tests accept exactly the grammar characters. |
| Utf8.CharWidthOfUtf8Char | src/lib.rs:257 | Every grammar character is as long as its lead byte announces, so the grammar's split point is unique. |
| Utf8.EncodeChar | src/lib.rs:257-258 | The UTF-8 form of a scalar value is one grammar character of its shortest width. |
| Utf8.CodePoint | src/lib.rs:257-258 | A grammar character stands for a scalar value whose shortest form has the character's length: no surrogates, no overlong forms, nothing above U+10FFFF. |
| Utf8.CodePointOfEncodeChar | src/lib.rs:257-258 | Decoding the form of a scalar value gives the value back. |
| Utf8.EncodeCharOfCodePoint | src/lib.rs:257-258 | Encoding the value a grammar character stands for gives the character back. |
| Parity.InvalidUtf8IsInvalid | src/lib.rs:286 | The test sample `[0x66, 0x6f, 0x80, 0x6f]` is not valid UTF-8. |
| Parity.AddedVariableCanBeRead | src/lib.rs:288-304 | After setting a key to some text in any environment, `var` returns that text. |
| Parity.NonexistentVariableIsNotPresent | src/lib.rs:306-321 | In a new environment, `var` is `NotPresent` and `var_os` is `None` for every key. |
| Parity.InvalidValueIsNotUnicode | src/lib.rs:342-357 | After setting a key to any non-UTF-8 value, `var` fails with `NotUnicode` carrying exactly that value. |
| Parity.InvalidUtf8Sample | src/lib.rs:342-390 | With the test sample, `var` gives `NotUnicode(sample)` and `var_os` gives `Some(sample)`. |
| Parity.SettingTwiceOverwrites | src/lib.rs:392-410 | Setting a key twice gives the same environment as setting only the second value. |
| Parity.RemovedVariableNoLongerExists | src/lib.rs:412-429 | After set then remove, `var` is `NotPresent`. The pair has the same effect as the remove alone. |
| Parity.RemovingNonexistentVariableIsNoOp | src/lib.rs:431-445 | Removing an absent key leaves the environment unchanged, so removal is idempotent. |
| Parity.InstancesAreIsolated | src/lib.rs:200-204 | Setting a key in one instance does not make it visible in another, new instance. |
| Replay.RunReadsLastWrite | src/lib.rs:250-271 | After any sequence of sets and removes, `var_os` returns what the last operation on that key left. If no operation touched the key, it returns the starting value. |
| Replay.RunAppend | src/lib.rs:250-271 | Running two operation sequences in turn is running their concatenation. |
| Replay.ApplyCommutes | src/lib.rs:250-271 | Sets and removes on different keys commute. |
| Replay.FreshRunVar | src/lib.rs:255-271 | Starting from a new environment, `var` is `NotPresent` exactly when the key's last operation was a remove or the key was never touched. `var` is `Ok(text)` exactly when the last operation set the UTF-8 form of `text`. |
| ConfigExample.GetConfigLocation | src/lib.rs:37-42 | The location is the variable's text when it holds valid UTF-8. Otherwise it is `/etc/my_app/service.conf`. |
| ConfigExample.UserSpecifiedLocationIsUsed | src/lib.rs:44-60 | Setting `CONFIG_LOCATION` in a new environment makes that location the result. |
| ConfigExample.DefaultLocationWhenUnset | src/lib.rs:28-42 | A new environment yields the default location. |

## Left out

- `RealEnvironment` (src/lib.rs:113-198) is not modelled. It forwards to `std::env` and so to process-global OS state. Its panics on an empty key, a key containing `=` or NUL, or a value containing NUL, are OS rules that the fake does not check. The model accepts every byte string as a key or value, as the fake does.
- The generic `impl AsRef<OsStr>` parameters and the test that exercises them (src/lib.rs:323-340) are not modelled. They are type-level conveniences, so keys and values enter the model already converted to byte strings.
- Only the Unix byte-string view of `OsString` is modelled. The Windows WTF-16 representation is not.
- `Validate` does not model the standard library's word-at-a-time ASCII fast path. That path is an optimisation with the same result.
- `Validate` does not model the position and length fields of `Utf8Error`, because `var` discards them.
- The crate's thread-safety notes (src/lib.rs:120-129, 179-188) are not modelled. They document the OS environment, and the code contains no concurrency logic.
- `src/test_helpers.rs` is not modelled. It generates random upper-case names with a random number generator. The lemmas instead quantify over all keys and values.
- The derived `Clone` and `Debug` of `FakeEnvironment` are not modelled. The model's store is an immutable value, so cloning is the identity.
- `Default` is also derived. It builds the same empty map as `new`, so `New` stands for both.
