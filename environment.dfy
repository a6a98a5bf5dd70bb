/** The process environment, passed in as a value. */
module Environment {

  /** Environment variables by name. */
  type Env = map<string, string>

  /** os.Getenv: an unset variable reads as the empty string. */
  function Getenv(env: Env, name: string): (v: string)
    ensures name !in env ==> v == ""
    ensures name in env ==> v == env[name]
  {
    if name in env then env[name] else ""
  }

  /** Unsetting one variable leaves every other variable as it was. */
  lemma GetenvUnset(env: Env, unset: string, name: string)
    requires name != unset
    ensures Getenv(env - {unset}, name) == Getenv(env, name)
    ensures Getenv(env - {unset}, unset) == ""
  {
  }
}
