/** The effect on the name-keyed registry of each kind of row the analyzer
    reads: auth rows, privilege rows, creation rows and metadata rows.
    Each effect is a function of the registry before and the rows read; the
    lemmas characterise the result name by name ("last write wins, nothing
    else changes") and show that every step keeps the registry invariant. */
module Ingestion {
  import opened Records

  type PlayerMap = map<string, Player>

  /** `(id, name, last_login)` from the auth table. */
  datatype AuthRow = AuthRow(id: int, name: string, lastLogin: int)
  /** `(id, privilege)` from the privilege table. */
  datatype PrivRow = PrivRow(id: int, priv: string)
  /** `(name, creation time in seconds)` from the player table. */
  datatype CreationRow = CreationRow(name: string, creationDate: int)
  /** `(player, metadata, value)` from the metadata table; `value` is None
      when the stored text does not read as an integer. */
  datatype MetaRow = MetaRow(name: string, key: string, value: Option<int>)

  /** The index of the last element of `s` that satisfies `p`. */
  function LastWhere<T>(s: seq<T>, p: T -> bool): (r: Option<nat>)
    ensures r.None? <==> forall i :: 0 <= i < |s| ==> !p(s[i])
    ensures r.Some? ==> r.value < |s| && p(s[r.value]) && forall j :: r.value < j < |s| ==> !p(s[j])
    decreases |s|
  {
    if s == [] then None
    else if p(s[|s| - 1]) then Some(|s| - 1)
    else LastWhere(s[..|s| - 1], p)
  }

  /** The record stored under `name`, or the defaults it would be created with. */
  function Lookup(m: PlayerMap, name: string): Player
  {
    if name in m then m[name] else EmptyPlayer()
  }

  /** The registry after looking `name` up, creating its record if missing. */
  function WithPlayer(m: PlayerMap, name: string): (r: PlayerMap)
    ensures r.Keys == m.Keys + {name}
    ensures name in m ==> r == m
    ensures name !in m ==> r[name] == EmptyPlayer()
    ensures forall n :: n in m ==> r[n] == m[n]
  {
    if name in m then m else m[name := EmptyPlayer()]
  }

  lemma WithPlayerIdempotent(m: PlayerMap, name: string)
    ensures WithPlayer(WithPlayer(m, name), name) == WithPlayer(m, name)
  {
  }

  /** The registry invariant: every record's `actions` is its counter sum
      and every privilege it holds is on the allow-list. */
  predicate RegistryInvariant(m: PlayerMap, specialPrivs: seq<string>)
  {
    forall n :: n in m ==> ActionsConsistent(m[n]) && PrivsAllowed(m[n], specialPrivs)
  }

  /** Creating a default record keeps the invariant. */
  lemma WithPlayerKeepsInvariant(m: PlayerMap, name: string, specialPrivs: seq<string>)
    requires RegistryInvariant(m, specialPrivs)
    ensures RegistryInvariant(WithPlayer(m, name), specialPrivs)
  {
    var e := EmptyPlayer();
    assert GetField(e, Actions) == 0 && GetField(e, DiggedNodes) == 0 && GetField(e, Crafted) == 0;
    assert GetField(e, PlacedNodes) == 0 && GetField(e, InflictedDamage) == 0;
  }

  // ---------------------------------------------------------------- auth rows

  function ApplyAuthRow(m: PlayerMap, row: AuthRow): (r: PlayerMap)
    ensures r.Keys == m.Keys + {row.name}
    ensures forall n :: n in m && n != row.name ==> r[n] == m[n]
    ensures r[row.name] == Lookup(m, row.name).(authId := row.id, lastLogin := row.lastLogin)
  {
    var m1 := WithPlayer(m, row.name);
    var m2 := m1[row.name := m1[row.name].(authId := row.id)];
    var m3 := WithPlayer(m2, row.name);
    m3[row.name := m3[row.name].(lastLogin := row.lastLogin)]
  }

  /** The auth loop: the left fold of ApplyAuthRow over the rows. It
      registers every name the rows carry. */
  function ApplyAuthRows(m: PlayerMap, rows: seq<AuthRow>): (r: PlayerMap)
    ensures m.Keys <= r.Keys
    ensures forall i :: 0 <= i < |rows| ==> rows[i].name in r
    decreases |rows|
  {
    if rows == [] then m
    else ApplyAuthRow(ApplyAuthRows(m, rows[..|rows| - 1]), rows[|rows| - 1])
  }

  /** After the auth rows, a name that occurs in them has the id and login
      time of its last row and keeps every other field; any other name is
      exactly as before. */
  lemma {:induction false} AuthRowsEffect(m: PlayerMap, rows: seq<AuthRow>, name: string)
    ensures var r := ApplyAuthRows(m, rows);
      match LastWhere(rows, (row: AuthRow) => row.name == name)
      case None => (name in r <==> name in m) && (name in m ==> r[name] == m[name])
      case Some(i) => name in r && r[name] == Lookup(m, name).(authId := rows[i].id, lastLogin := rows[i].lastLogin)
    decreases |rows|
  {
    if rows != [] {
      var pre := rows[..|rows| - 1];
      AuthRowsEffect(m, pre, name);
      if rows[|rows| - 1].name != name {
        assert LastWhere(rows, (row: AuthRow) => row.name == name) == LastWhere(pre, (row: AuthRow) => row.name == name);
      }
    }
  }

  /** The id-to-name map the auth pass builds alongside the registry. */
  function AuthIdMap(rows: seq<AuthRow>): (r: map<int, string>)
    ensures forall i :: 0 <= i < |rows| ==> rows[i].id in r
    decreases |rows|
  {
    if rows == [] then map[]
    else AuthIdMap(rows[..|rows| - 1])[rows[|rows| - 1].id := rows[|rows| - 1].name]
  }

  /** An id maps to the name of the last auth row carrying it; ids that no
      row carries are absent. */
  lemma {:induction false} AuthIdMapEffect(rows: seq<AuthRow>, id: int)
    ensures match LastWhere(rows, (row: AuthRow) => row.id == id)
      case None => id !in AuthIdMap(rows)
      case Some(i) => id in AuthIdMap(rows) && AuthIdMap(rows)[id] == rows[i].name
    decreases |rows|
  {
    if rows != [] {
      var pre := rows[..|rows| - 1];
      AuthIdMapEffect(pre, id);
      if rows[|rows| - 1].id != id {
        assert LastWhere(rows, (row: AuthRow) => row.id == id) == LastWhere(pre, (row: AuthRow) => row.id == id);
      }
    }
  }

  /** Every name the id map yields already has a record after the auth pass. */
  lemma {:induction false} AuthIdMapNamesRegistered(m: PlayerMap, rows: seq<AuthRow>)
    ensures forall id :: id in AuthIdMap(rows) ==> AuthIdMap(rows)[id] in ApplyAuthRows(m, rows)
    decreases |rows|
  {
    if rows != [] {
      AuthIdMapNamesRegistered(m, rows[..|rows| - 1]);
    }
  }

  lemma {:induction false} AuthRowsKeepInvariant(m: PlayerMap, rows: seq<AuthRow>, specialPrivs: seq<string>)
    requires RegistryInvariant(m, specialPrivs)
    ensures RegistryInvariant(ApplyAuthRows(m, rows), specialPrivs)
  {
    var r := ApplyAuthRows(m, rows);
    forall n | n in r
      ensures ActionsConsistent(r[n]) && PrivsAllowed(r[n], specialPrivs)
    {
      AuthRowsEffect(m, rows, n);
    }
  }

  // ----------------------------------------------------------- privilege rows

  /** Every privilege row's id is a key of the id map (otherwise the lookup
      raises a KeyError). */
  predicate IdsKnown(idMap: map<int, string>, rows: seq<PrivRow>)
  {
    forall i :: 0 <= i < |rows| ==> rows[i].id in idMap
  }

  function ApplyPrivRow(m: PlayerMap, idMap: map<int, string>, specialPrivs: seq<string>, row: PrivRow): (r: PlayerMap)
    requires row.id in idMap
    ensures row.priv !in specialPrivs ==> r == m
    ensures row.priv in specialPrivs ==>
      var name := idMap[row.id];
      && r.Keys == m.Keys + {name}
      && (forall n :: n in m && n != name ==> r[n] == m[n])
      && r[name] == Lookup(m, name).(privs := Lookup(m, name).privs + [row.priv])
  {
    var name := idMap[row.id];
    if row.priv in specialPrivs then
      var m1 := WithPlayer(m, name);
      m1[name := m1[name].(privs := m1[name].privs + [row.priv])]
    else
      m
  }

  /** The privilege loop: the left fold of ApplyPrivRow over the rows. It
      registers every name that receives an allow-listed grant. */
  function ApplyPrivRows(m: PlayerMap, idMap: map<int, string>, specialPrivs: seq<string>, rows: seq<PrivRow>): (r: PlayerMap)
    requires IdsKnown(idMap, rows)
    ensures m.Keys <= r.Keys
    ensures forall i :: 0 <= i < |rows| && rows[i].priv in specialPrivs ==> idMap[rows[i].id] in r
    decreases |rows|
  {
    if rows == [] then m
    else ApplyPrivRow(ApplyPrivRows(m, idMap, specialPrivs, rows[..|rows| - 1]), idMap, specialPrivs, rows[|rows| - 1])
  }

  /** The allow-listed privileges the rows grant to `name`, in row order,
      duplicates included. */
  function Granted(idMap: map<int, string>, specialPrivs: seq<string>, rows: seq<PrivRow>, name: string): (g: seq<string>)
    requires IdsKnown(idMap, rows)
    ensures forall i :: 0 <= i < |g| ==> g[i] in specialPrivs
    ensures |g| <= |rows|
    decreases |rows|
  {
    if rows == [] then []
    else
      var row := rows[|rows| - 1];
      Granted(idMap, specialPrivs, rows[..|rows| - 1], name)
        + (if idMap[row.id] == name && row.priv in specialPrivs then [row.priv] else [])
  }

  /** After the privilege rows, a record has gained exactly the allow-listed
      privileges granted to it, appended in row order; nothing else changes,
      and a record is created only for a name that is granted something. */
  lemma {:induction false} PrivRowsEffect(m: PlayerMap, idMap: map<int, string>, specialPrivs: seq<string>, rows: seq<PrivRow>, name: string)
    requires IdsKnown(idMap, rows)
    ensures var r := ApplyPrivRows(m, idMap, specialPrivs, rows);
      var g := Granted(idMap, specialPrivs, rows, name);
      && (name in r <==> name in m || g != [])
      && (name in r ==> r[name] == Lookup(m, name).(privs := Lookup(m, name).privs + g))
    decreases |rows|
  {
    if rows != [] {
      var pre := rows[..|rows| - 1];
      PrivRowsEffect(m, idMap, specialPrivs, pre, name);
      var row := rows[|rows| - 1];
      var g := Granted(idMap, specialPrivs, pre, name);
      if idMap[row.id] == name && row.priv in specialPrivs {
        assert Lookup(m, name).privs + g + [row.priv] == Lookup(m, name).privs + (g + [row.priv]);
      } else {
        assert Granted(idMap, specialPrivs, rows, name) == g + [];
      }
    } else {
      assert Lookup(m, name).privs + [] == Lookup(m, name).privs;
    }
  }

  lemma {:induction false} PrivRowsKeepInvariant(m: PlayerMap, idMap: map<int, string>, specialPrivs: seq<string>, rows: seq<PrivRow>)
    requires IdsKnown(idMap, rows)
    requires RegistryInvariant(m, specialPrivs)
    ensures RegistryInvariant(ApplyPrivRows(m, idMap, specialPrivs, rows), specialPrivs)
  {
    var r := ApplyPrivRows(m, idMap, specialPrivs, rows);
    forall n | n in r
      ensures ActionsConsistent(r[n]) && PrivsAllowed(r[n], specialPrivs)
    {
      PrivRowsEffect(m, idMap, specialPrivs, rows, n);
    }
  }

  // ------------------------------------------------------------ creation rows

  function ApplyCreationRow(m: PlayerMap, row: CreationRow): (r: PlayerMap)
    ensures r.Keys == m.Keys + {row.name}
    ensures forall n :: n in m && n != row.name ==> r[n] == m[n]
    ensures r[row.name] == Lookup(m, row.name).(creationDate := row.creationDate)
  {
    var m1 := WithPlayer(m, row.name);
    m1[row.name := m1[row.name].(creationDate := row.creationDate)]
  }

  /** The creation loop: the left fold of ApplyCreationRow over the rows.
      It registers every name the rows carry. */
  function ApplyCreationRows(m: PlayerMap, rows: seq<CreationRow>): (r: PlayerMap)
    ensures m.Keys <= r.Keys
    ensures forall i :: 0 <= i < |rows| ==> rows[i].name in r
    decreases |rows|
  {
    if rows == [] then m
    else ApplyCreationRow(ApplyCreationRows(m, rows[..|rows| - 1]), rows[|rows| - 1])
  }

  /** After the creation rows, a name that occurs in them has the creation
      time of its last row and keeps every other field; any other name is
      exactly as before. */
  lemma {:induction false} CreationRowsEffect(m: PlayerMap, rows: seq<CreationRow>, name: string)
    ensures var r := ApplyCreationRows(m, rows);
      match LastWhere(rows, (row: CreationRow) => row.name == name)
      case None => (name in r <==> name in m) && (name in m ==> r[name] == m[name])
      case Some(i) => name in r && r[name] == Lookup(m, name).(creationDate := rows[i].creationDate)
    decreases |rows|
  {
    if rows != [] {
      var pre := rows[..|rows| - 1];
      CreationRowsEffect(m, pre, name);
      if rows[|rows| - 1].name != name {
        assert LastWhere(rows, (row: CreationRow) => row.name == name) == LastWhere(pre, (row: CreationRow) => row.name == name);
      }
    }
  }

  lemma {:induction false} CreationRowsKeepInvariant(m: PlayerMap, rows: seq<CreationRow>, specialPrivs: seq<string>)
    requires RegistryInvariant(m, specialPrivs)
    ensures RegistryInvariant(ApplyCreationRows(m, rows), specialPrivs)
  {
    var r := ApplyCreationRows(m, rows);
    forall n | n in r
      ensures ActionsConsistent(r[n]) && PrivsAllowed(r[n], specialPrivs)
    {
      CreationRowsEffect(m, rows, n);
    }
  }

  // ------------------------------------------------------------ metadata rows

  /** A row's value needs to read as an integer only when its key is recognised. */
  predicate ValueParses(cfg: Config, row: MetaRow)
  {
    row.key in cfg.metaKeysInt ==> row.value.Some?
  }

  predicate AllValuesParse(cfg: Config, rows: seq<MetaRow>)
  {
    forall i :: 0 <= i < |rows| ==> ValueParses(cfg, rows[i])
  }

  /** A recognised key overwrites its field; any key then recomputes `actions`. */
  function ApplyMetaRow(m: PlayerMap, cfg: Config, row: MetaRow): (r: PlayerMap)
    requires MetaKeysWellFormed(cfg) && ValueParses(cfg, row)
    ensures r.Keys == m.Keys + {row.name}
    ensures forall n :: n in m && n != row.name ==> r[n] == m[n]
  {
    var m1 := WithPlayer(m, row.name);
    var p := m1[row.name];
    var p1 := if row.key in cfg.metaKeysInt then SetField(p, FieldOfKey(row.key).value, row.value.value) else p;
    m1[row.name := RecomputeActions(p1)]
  }

  /** One metadata row: a recognised key overwrites exactly its own field,
      an unrecognised key changes no stored field, and in both cases the
      privileges are kept and `actions` becomes the counter sum. */
  lemma MetaRowEffect(m: PlayerMap, cfg: Config, row: MetaRow)
    requires MetaKeysWellFormed(cfg) && ValueParses(cfg, row)
    ensures var p := ApplyMetaRow(m, cfg, row)[row.name];
      && ActionsConsistent(p)
      && p.privs == Lookup(m, row.name).privs
      && forall g :: g != Actions ==>
        GetField(p, g) ==
          if row.key == KeyOfField(g) && row.key in cfg.metaKeysInt then row.value.value
          else GetField(Lookup(m, row.name), g)
  {
  }

  /** The metadata loop: the left fold of ApplyMetaRow over the rows. It
      registers every name the rows carry, whatever their keys. */
  function ApplyMetaRows(m: PlayerMap, cfg: Config, rows: seq<MetaRow>): (r: PlayerMap)
    requires MetaKeysWellFormed(cfg) && AllValuesParse(cfg, rows)
    ensures m.Keys <= r.Keys
    ensures forall i :: 0 <= i < |rows| ==> rows[i].name in r
    decreases |rows|
  {
    if rows == [] then m
    else
      var pre := rows[..|rows| - 1];
      assert forall i :: 0 <= i < |pre| ==> pre[i] == rows[i];
      ApplyMetaRow(ApplyMetaRows(m, cfg, pre), cfg, rows[|rows| - 1])
  }

  /** The value a field of `name` holds after the metadata rows: that of the
      last row for this name and key when the key is recognised, and the
      value before the rows otherwise. */
  function MetaFieldAfter(m: PlayerMap, cfg: Config, rows: seq<MetaRow>, name: string, g: IntField): int
    requires AllValuesParse(cfg, rows)
  {
    var last := LastWhere(rows, (row: MetaRow) => row.name == name && row.key == KeyOfField(g));
    if KeyOfField(g) in cfg.metaKeysInt && last.Some? then rows[last.value].value.value
    else GetField(Lookup(m, name), g)
  }

  /** The last metadata row decides a field when it is for this name and
      this recognised key; otherwise the earlier rows do. */
  lemma MetaFieldAfterStep(m: PlayerMap, cfg: Config, rows: seq<MetaRow>, name: string, g: IntField)
    requires rows != [] && AllValuesParse(cfg, rows)
    ensures var row := rows[|rows| - 1];
      MetaFieldAfter(m, cfg, rows, name, g) ==
        if row.name == name && row.key == KeyOfField(g) && row.key in cfg.metaKeysInt then row.value.value
        else MetaFieldAfter(m, cfg, rows[..|rows| - 1], name, g)
  {
    var row := rows[|rows| - 1];
    if !(row.name == name && row.key == KeyOfField(g)) {
      assert LastWhere(rows, (row: MetaRow) => row.name == name && row.key == KeyOfField(g))
          == LastWhere(rows[..|rows| - 1], (row: MetaRow) => row.name == name && row.key == KeyOfField(g));
    }
  }

  /** A name no metadata row mentions keeps every field. */
  lemma MetaFieldAfterUnmentioned(m: PlayerMap, cfg: Config, rows: seq<MetaRow>, name: string, g: IntField)
    requires AllValuesParse(cfg, rows)
    requires LastWhere(rows, (row: MetaRow) => row.name == name).None?
    ensures MetaFieldAfter(m, cfg, rows, name, g) == GetField(Lookup(m, name), g)
  {
    assert LastWhere(rows, (row: MetaRow) => row.name == name && row.key == KeyOfField(g)).None?;
  }

  /** After the metadata rows, a name that occurs in them holds, in each
      stored integer field, the value of its last recognised row for that
      key (or its value before), its privileges are untouched and its
      `actions` is the counter sum; any other name is exactly as before. */
  lemma {:induction false} MetaRowsEffect(m: PlayerMap, cfg: Config, rows: seq<MetaRow>, name: string)
    requires MetaKeysWellFormed(cfg) && AllValuesParse(cfg, rows)
    ensures var r := ApplyMetaRows(m, cfg, rows);
      match LastWhere(rows, (row: MetaRow) => row.name == name)
      case None => (name in r <==> name in m) && (name in m ==> r[name] == m[name])
      case Some(_) =>
        && name in r
        && ActionsConsistent(r[name])
        && r[name].privs == Lookup(m, name).privs
        && forall g :: g != Actions ==> GetField(r[name], g) == MetaFieldAfter(m, cfg, rows, name, g)
    decreases |rows|
  {
    if rows != [] {
      var pre := rows[..|rows| - 1];
      var row := rows[|rows| - 1];
      var rp := ApplyMetaRows(m, cfg, pre);
      MetaRowsEffect(m, cfg, pre, name);
      if row.name != name {
        assert LastWhere(rows, (row: MetaRow) => row.name == name) == LastWhere(pre, (row: MetaRow) => row.name == name);
        forall g | g != Actions
          ensures MetaFieldAfter(m, cfg, rows, name, g) == MetaFieldAfter(m, cfg, pre, name, g)
        {
          MetaFieldAfterStep(m, cfg, rows, name, g);
        }
      } else {
        MetaRowEffect(rp, cfg, row);
        var unmentioned := LastWhere(pre, (row: MetaRow) => row.name == name).None?;
        assert Lookup(rp, name).privs == Lookup(m, name).privs;
        forall g | g != Actions
          ensures GetField(Lookup(rp, name), g) == MetaFieldAfter(m, cfg, pre, name, g)
        {
          if unmentioned {
            MetaFieldAfterUnmentioned(m, cfg, pre, name, g);
          }
        }
        forall g | g != Actions
          ensures MetaFieldAfter(m, cfg, rows, name, g) ==
            if row.key == KeyOfField(g) && row.key in cfg.metaKeysInt then row.value.value
            else MetaFieldAfter(m, cfg, pre, name, g)
        {
          MetaFieldAfterStep(m, cfg, rows, name, g);
        }
      }
    }
  }

  lemma {:induction false} MetaRowsKeepInvariant(m: PlayerMap, cfg: Config, rows: seq<MetaRow>)
    requires MetaKeysWellFormed(cfg) && AllValuesParse(cfg, rows)
    requires RegistryInvariant(m, cfg.specialPrivs)
    ensures RegistryInvariant(ApplyMetaRows(m, cfg, rows), cfg.specialPrivs)
  {
    var r := ApplyMetaRows(m, cfg, rows);
    forall n | n in r
      ensures ActionsConsistent(r[n]) && PrivsAllowed(r[n], cfg.specialPrivs)
    {
      MetaRowsEffect(m, cfg, rows, n);
    }
  }
}
