/** The retention decision: an ordered, short-circuiting chain of tests on
    one account, and the set of registry names the chain decides to drop. */
module Retention {
  import opened Records

  /** The positive signals of tests three to six of the chain in
      `KeepPlayer`: enough experience, the citizenship privilege, enough
      actions, or a login after the threshold. */
  predicate HasPositiveSignal(p: Player, cfg: Config)
  {
    || p.xp >= cfg.minXp
    || "citizenship" in p.privs
    || p.actions >= cfg.minActions
    || p.lastLogin > cfg.loginThreshold
  }

  /** True to keep the account `name`, false to drop it. The empty name and
      the always-keep names are decided without consulting the registry;
      any other name must have a record. */
  function KeepPlayer(players: map<string, Player>, cfg: Config, name: string): (keep: bool)
    requires name == "" || name in cfg.keepList || name in players
    ensures name == "" || name in cfg.keepList ==> keep
    ensures name != "" && name !in cfg.keepList ==> (keep <==> HasPositiveSignal(players[name], cfg))
  {
    if name == "" then true
    else if name in cfg.keepList then true
    else
      var info := players[name];
      if info.xp >= cfg.minXp then true
      else if "citizenship" in info.privs then true
      else if info.actions >= cfg.minActions then true
      else if info.lastLogin > cfg.loginThreshold then true
      // Authenticated but never entered the world.
      else if info.authId > 0 && info.creationDate < 1 then false
      // Entered the world but never authenticated; the default id is 0, so
      // only a negative id reaches this branch.
      else if info.authId < 0 && info.creationDate > 0 then false
      else false
  }

  /** The names of the registry to delete: exactly the registered names,
      other than the empty name and the always-keep names, that show no
      positive signal. */
  function FilterPlayers(players: map<string, Player>, cfg: Config): (unused: set<string>)
    ensures unused <= players.Keys
    ensures forall name :: name in unused <==>
      name in players && name != "" && name !in cfg.keepList && !HasPositiveSignal(players[name], cfg)
  {
    set name | name in players && !KeepPlayer(players, cfg, name)
  }
}
