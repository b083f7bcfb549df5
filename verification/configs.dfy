/**
 * The run configuration (`GitHubOperationConfig`) and the two bounds its
 * constructor enforces. The stop event and the file-path fields are not
 * part of this model: the first becomes the scheduler's observations, the
 * second is consumed before the configuration is used.
 */
module Configs {
  import opened Wrappers
  import Dicts

  datatype Config = Config(
    organization: string,
    secretsToSet: Dicts.Pairs,
    variablesToSet: Dicts.Pairs,
    deleteSecrets: seq<string>,
    deleteVariables: seq<string>,
    repositories: seq<string>,
    maxWorkers: int,
    sleepAfterRepo: int,
    force: bool)

  /** The two `ValueError`s the constructor can raise. */
  datatype ConfigError = MaxWorkersBelowOne | NegativeSleep

  predicate Valid(c: Config)
  {
    c.maxWorkers >= 1 && c.sleepAfterRepo >= 0
  }

  /**
   * Construction followed by the post-init check: the worker bound is
   * checked first, so it is the error reported when both are violated.
   */
  function NewConfig(
    organization: string,
    secretsToSet: Dicts.Pairs,
    variablesToSet: Dicts.Pairs,
    deleteSecrets: seq<string>,
    deleteVariables: seq<string>,
    repositories: seq<string>,
    maxWorkers: int,
    sleepAfterRepo: int,
    force: bool): (r: Result<Config, ConfigError>)
    ensures r.Ok? <==> maxWorkers >= 1 && sleepAfterRepo >= 0
    ensures r.Ok? ==> Valid(r.value)
    ensures r.Ok? ==> r.value == Config(organization, secretsToSet, variablesToSet, deleteSecrets,
                                        deleteVariables, repositories, maxWorkers, sleepAfterRepo, force)
    ensures maxWorkers < 1 ==> r == Err(MaxWorkersBelowOne)
    ensures maxWorkers >= 1 && sleepAfterRepo < 0 ==> r == Err(NegativeSleep)
  {
    if maxWorkers < 1 then Err(MaxWorkersBelowOne)
    else if sleepAfterRepo < 0 then Err(NegativeSleep)
    else Ok(Config(organization, secretsToSet, variablesToSet, deleteSecrets, deleteVariables,
                   repositories, maxWorkers, sleepAfterRepo, force))
  }

  /** The configuration built with every field left at its default. */
  function Defaults(): (c: Config)
    ensures NewConfig(c.organization, c.secretsToSet, c.variablesToSet, c.deleteSecrets,
                      c.deleteVariables, c.repositories, c.maxWorkers, c.sleepAfterRepo, c.force) == Ok(c)
    ensures c.maxWorkers == 1 && c.sleepAfterRepo == 0 && !c.force
    ensures c.organization == "" && c.repositories == []
    ensures c.secretsToSet == [] && c.variablesToSet == []
    ensures c.deleteSecrets == [] && c.deleteVariables == []
  {
    Config("", [], [], [], [], [], 1, 0, false)
  }
}
