/** What the handlers and the initialiser see of the storage engines: which
    engine is active, the one opaque failure an engine can report, the
    positional parameters a query carries, and where in a handler's sequence
    of queries a failure strikes. */
module Sql {
  import opened Common

  /** The embedded file-based engine or the client-server engine. */
  datatype Engine = Sqlite | Mysql

  /** The process environment: variable name to value. */
  type Env = map<string, string>

  function EnvVar(env: Env, name: string): Option<string>
  {
    if name in env then Some(env[name]) else None
  }

  /** `config/database.js`: the client-server engine exactly when `DB_HOST`
      is set to a non-empty value; the embedded engine otherwise. */
  function SelectEngine(env: Env): (e: Engine)
    ensures e == Mysql <==> "DB_HOST" in env && env["DB_HOST"] != ""
  {
    if Present(EnvVar(env, "DB_HOST")) then Mysql else Sqlite
  }

  /** An engine failure. The storage layer reports a duplicate `UNIQUE` key
      separately only so that the model can show it never happens; callers
      treat every failure alike. */
  datatype DbError = UniqueViolation | EngineFailure

  /** A positional query parameter. */
  datatype SqlValue = SqlNull | SqlInt(i: int) | SqlText(s: string)

  /** `Some(k)`: the `k`-th query a handler sends (counting from 0) is the
      first one the engine rejects. `None`: the engine accepts every query. */
  type FailurePoint = Option<nat>

  predicate FailsAt(failAt: FailurePoint, k: nat)
  {
    failAt == Some(k)
  }
}
