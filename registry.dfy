/** The analyzer's shared, name-keyed store of account records and the two
    reading passes that fill it in place. Each method is specified by the
    pure row effects of module Ingestion; the lemmas there say what those
    effects are name by name. */
module Registry {
  import opened Records
  import opened Ingestion
  import opened Retention

  class PlayerRegistry {
    /** Account name to merged record. */
    var players: map<string, Player>

    constructor ()
      ensures players == map[]
    {
      players := map[];
    }

    /** Returns the record for `name`, first storing the default record
        under `name` when there is none; every other entry is untouched. */
    method GetPlayer(name: string) returns (p: Player)
      modifies this
      ensures players == WithPlayer(old(players), name)
      ensures p == players[name]
    {
      if name !in players {
        players := players[name := EmptyPlayer()];
      }
      p := players[name];
    }

    /** The first loop of the auth pass: each auth row sets its name's id
        and login time, and the returned map takes the row's id to its name. */
    method IngestAuthRows(authRows: seq<AuthRow>) returns (idMap: map<int, string>)
      modifies this
      ensures idMap == AuthIdMap(authRows)
      ensures players == ApplyAuthRows(old(players), authRows)
    {
      idMap := map[];
      var i := 0;
      while i < |authRows|
        invariant 0 <= i <= |authRows|
        invariant idMap == AuthIdMap(authRows[..i])
        invariant players == ApplyAuthRows(old(players), authRows[..i])
      {
        var row := authRows[i];
        ghost var before := players;
        idMap := idMap[row.id := row.name];
        var p := GetPlayer(row.name);
        players := players[row.name := p.(authId := row.id)];
        p := GetPlayer(row.name);
        players := players[row.name := p.(lastLogin := row.lastLogin)];
        assert players == ApplyAuthRow(before, row);
        assert authRows[..i + 1][..i] == authRows[..i];
        i := i + 1;
      }
      assert authRows[..i] == authRows;
    }

    /** The second loop of the auth pass: each privilege row resolves its id
        to a name and appends the privilege when it is allow-listed. A row
        whose id is not in `idMap` stops the loop (a KeyError in the
        analyzer): `failedAt` is that row's index, and the rows before it
        have been applied. */
    method IngestPrivRows(idMap: map<int, string>, specialPrivs: seq<string>, privRows: seq<PrivRow>)
      returns (failedAt: Option<nat>)
      modifies this
      ensures match failedAt
        case None =>
          IdsKnown(idMap, privRows) && players == ApplyPrivRows(old(players), idMap, specialPrivs, privRows)
        case Some(k) =>
          && k < |privRows| && privRows[k].id !in idMap
          && IdsKnown(idMap, privRows[..k])
          && players == ApplyPrivRows(old(players), idMap, specialPrivs, privRows[..k])
    {
      var j := 0;
      while j < |privRows|
        invariant 0 <= j <= |privRows|
        invariant IdsKnown(idMap, privRows[..j])
        invariant players == ApplyPrivRows(old(players), idMap, specialPrivs, privRows[..j])
      {
        var row := privRows[j];
        if row.id !in idMap {
          return Some(j);
        }
        var name := idMap[row.id];
        if row.priv in specialPrivs {
          var p := GetPlayer(name);
          players := players[name := p.(privs := p.privs + [row.priv])];
        }
        assert privRows[..j + 1][..j] == privRows[..j];
        j := j + 1;
      }
      assert privRows[..j] == privRows;
      failedAt := None;
    }

    /** The auth pass: the auth rows, then the privilege rows resolved
        through the id map the auth rows built. */
    method ReadAuthData(cfg: Config, authRows: seq<AuthRow>, privRows: seq<PrivRow>) returns (failedAt: Option<nat>)
      modifies this
      ensures var idMap := AuthIdMap(authRows);
        var afterAuth := ApplyAuthRows(old(players), authRows);
        match failedAt
        case None =>
          IdsKnown(idMap, privRows) && players == ApplyPrivRows(afterAuth, idMap, cfg.specialPrivs, privRows)
        case Some(k) =>
          && k < |privRows| && privRows[k].id !in idMap
          && IdsKnown(idMap, privRows[..k])
          && players == ApplyPrivRows(afterAuth, idMap, cfg.specialPrivs, privRows[..k])
      ensures RegistryInvariant(old(players), cfg.specialPrivs) ==> RegistryInvariant(players, cfg.specialPrivs)
    {
      var idMap := IngestAuthRows(authRows);
      ghost var afterAuth := players;
      failedAt := IngestPrivRows(idMap, cfg.specialPrivs, privRows);
      if RegistryInvariant(old(players), cfg.specialPrivs) {
        AuthRowsKeepInvariant(old(players), authRows, cfg.specialPrivs);
        match failedAt
        case None =>
          PrivRowsKeepInvariant(afterAuth, idMap, cfg.specialPrivs, privRows);
        case Some(k) =>
          PrivRowsKeepInvariant(afterAuth, idMap, cfg.specialPrivs, privRows[..k]);
      }
    }

    /** The first loop of the player pass: each creation row sets its
        name's creation time. */
    method IngestCreationRows(creationRows: seq<CreationRow>)
      modifies this
      ensures players == ApplyCreationRows(old(players), creationRows)
    {
      var i := 0;
      while i < |creationRows|
        invariant 0 <= i <= |creationRows|
        invariant players == ApplyCreationRows(old(players), creationRows[..i])
      {
        var row := creationRows[i];
        var p := GetPlayer(row.name);
        players := players[row.name := p.(creationDate := row.creationDate)];
        assert creationRows[..i + 1][..i] == creationRows[..i];
        i := i + 1;
      }
      assert creationRows[..i] == creationRows;
    }

    /** One metadata row: looks its name up, overwrites the field its key
        names when the key is recognised, and recomputes `actions`. When a
        recognised key's value does not read as an integer, only the lookup
        has happened and `ok` is false. */
    method IngestMetaRow(cfg: Config, row: MetaRow) returns (ok: bool)
      requires MetaKeysWellFormed(cfg)
      modifies this
      ensures ok == ValueParses(cfg, row)
      ensures ok ==> players == ApplyMetaRow(old(players), cfg, row)
      ensures !ok ==> players == WithPlayer(old(players), row.name)
    {
      var p := GetPlayer(row.name);
      if row.key in cfg.metaKeysInt {
        if row.value.None? {
          return false;
        }
        p := SetField(p, FieldOfKey(row.key).value, row.value.value);
      }
      players := players[row.name := RecomputeActions(p)];
      ok := true;
    }

    /** The second loop of the player pass: each metadata row overwrites
        the field its key names, when the key is recognised, and recomputes
        `actions`. A recognised key whose value does not read as an integer
        stops the loop: `failedAt` is that row's index, the rows before it
        have been applied, and its name has already been looked up (so its
        record exists). */
    method IngestMetaRows(cfg: Config, metaRows: seq<MetaRow>) returns (failedAt: Option<nat>)
      requires MetaKeysWellFormed(cfg)
      modifies this
      ensures match failedAt
        case None =>
          AllValuesParse(cfg, metaRows) && players == ApplyMetaRows(old(players), cfg, metaRows)
        case Some(k) =>
          && k < |metaRows| && !ValueParses(cfg, metaRows[k])
          && AllValuesParse(cfg, metaRows[..k])
          && players == WithPlayer(ApplyMetaRows(old(players), cfg, metaRows[..k]), metaRows[k].name)
    {
      var j := 0;
      while j < |metaRows|
        invariant 0 <= j <= |metaRows|
        invariant AllValuesParse(cfg, metaRows[..j])
        invariant players == ApplyMetaRows(old(players), cfg, metaRows[..j])
      {
        var ok := IngestMetaRow(cfg, metaRows[j]);
        if !ok {
          return Some(j);
        }
        assert metaRows[..j + 1][..j] == metaRows[..j];
        j := j + 1;
      }
      assert metaRows[..j] == metaRows;
      failedAt := None;
    }

    /** The player pass: the creation rows, then the metadata rows. */
    method ReadPlayerData(cfg: Config, creationRows: seq<CreationRow>, metaRows: seq<MetaRow>) returns (failedAt: Option<nat>)
      requires MetaKeysWellFormed(cfg)
      modifies this
      ensures var afterCreation := ApplyCreationRows(old(players), creationRows);
        match failedAt
        case None =>
          AllValuesParse(cfg, metaRows) && players == ApplyMetaRows(afterCreation, cfg, metaRows)
        case Some(k) =>
          && k < |metaRows| && !ValueParses(cfg, metaRows[k])
          && AllValuesParse(cfg, metaRows[..k])
          && players == WithPlayer(ApplyMetaRows(afterCreation, cfg, metaRows[..k]), metaRows[k].name)
      ensures RegistryInvariant(old(players), cfg.specialPrivs) ==> RegistryInvariant(players, cfg.specialPrivs)
    {
      IngestCreationRows(creationRows);
      ghost var afterCreation := players;
      failedAt := IngestMetaRows(cfg, metaRows);
      if RegistryInvariant(old(players), cfg.specialPrivs) {
        CreationRowsKeepInvariant(old(players), creationRows, cfg.specialPrivs);
        match failedAt
        case None =>
          MetaRowsKeepInvariant(afterCreation, cfg, metaRows);
        case Some(k) =>
          MetaRowsKeepInvariant(afterCreation, cfg, metaRows[..k]);
          WithPlayerKeepsInvariant(ApplyMetaRows(afterCreation, cfg, metaRows[..k]), metaRows[k].name, cfg.specialPrivs);
      }
    }

    /** A whole run on an empty registry: the auth pass, then the player
        pass, then the retention decision. The run aborts with no result
        exactly when a privilege row carries an unknown id or a recognised
        metadata value does not read as an integer. Otherwise the registry
        the decision sees is the four row effects applied in order, it keeps
        the registry invariant, and the result is the set of names to delete. */
    method FindUnusedPlayers(cfg: Config, authRows: seq<AuthRow>, privRows: seq<PrivRow>,
                             creationRows: seq<CreationRow>, metaRows: seq<MetaRow>)
      returns (unused: Option<set<string>>)
      requires MetaKeysWellFormed(cfg)
      requires players == map[]
      modifies this
      ensures unused.Some? <==> IdsKnown(AuthIdMap(authRows), privRows) && AllValuesParse(cfg, metaRows)
      ensures var idMap := AuthIdMap(authRows);
        unused.Some? ==>
          && IdsKnown(idMap, privRows) && AllValuesParse(cfg, metaRows)
          && players == ApplyMetaRows(
               ApplyCreationRows(ApplyPrivRows(ApplyAuthRows(map[], authRows), idMap, cfg.specialPrivs, privRows), creationRows),
               cfg, metaRows)
      ensures unused.Some? ==> RegistryInvariant(players, cfg.specialPrivs)
      ensures unused.Some? ==> unused.value == FilterPlayers(players, cfg)
    {
      var authFailed := ReadAuthData(cfg, authRows, privRows);
      if authFailed.Some? {
        return None;
      }
      var playerFailed := ReadPlayerData(cfg, creationRows, metaRows);
      if playerFailed.Some? {
        return None;
      }
      unused := Some(FilterPlayers(players, cfg));
    }
  }
}
