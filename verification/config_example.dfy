/** The crate's documented usage: an application reads `CONFIG_LOCATION`
    through the `Environment` capability and falls back to a default when the
    variable gives no text. */
module ConfigExample {
  import opened Wrappers
  import opened Utf8
  import opened Environment

  const CONFIG_LOCATION_ENV_VAR_NAME: string := "CONFIG_LOCATION"
  const DEFAULT_CONFIG_LOCATION: string := "/etc/my_app/service.conf"

  /** The configured location: the variable's text when it is set to valid
      UTF-8, the default location otherwise (unset or not text). */
  function GetConfigLocation(env: FakeEnvironment): (location: string)
    ensures var raw := VarOs(env, Encode(CONFIG_LOCATION_ENV_VAR_NAME));
            if raw.Some? && ValidUtf8(raw.value) then raw == Some(Encode(location))
            else location == DEFAULT_CONFIG_LOCATION
  {
    match Var(env, Encode(CONFIG_LOCATION_ENV_VAR_NAME))
    case Ok(location) => location
    case _ => DEFAULT_CONFIG_LOCATION
  }

  /** When the user has set the variable, that location is used. */
  lemma UserSpecifiedLocationIsUsed(location: string)
    ensures GetConfigLocation(SetVar(New(), Encode(CONFIG_LOCATION_ENV_VAR_NAME), Encode(location))) == location
  {
    var key := Encode(CONFIG_LOCATION_ENV_VAR_NAME);
    VarOkIff(SetVar(New(), key, Encode(location)), key, location);
  }

  /** Without the variable, the default location is used. */
  lemma DefaultLocationWhenUnset()
    ensures GetConfigLocation(New()) == DEFAULT_CONFIG_LOCATION
  {
  }
}
