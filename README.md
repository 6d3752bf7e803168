# Player cleanup analyzer: merge-and-decide core

The model covers the core of `player_analyzer.py`. The analyzer reads two game databases: the auth database (ids, login times, privileges) and the player database (creation times, per-player metadata counters). It merges the two into one registry keyed by player name, then uses a chain of retention tests to decide which accounts are "unused" and may be deleted.

The Dafny project has four modules, one file each:

- `records.dfy`, module `Records`: the per-account record (`Player`) and its integer fields. The analyzer stores a record as a dictionary with string keys; `FieldOfKey`/`KeyOfField` map those keys to fields. The module also holds the default record, the `actions` recomputation and the configuration. The configuration makes the script's module-level constants explicit: `min_xp`, `min_actions`, `login_threshold`, `special_privs`, `keep_list` and `meta_keys_int`.
- `ingestion.dfy`, module `Ingestion`: the effect of each kind of database row on the registry. Each effect is a pure function of the registry before the rows and the rows themselves. Lemmas characterise each result name by name: last write wins and nothing else changes. They also show that every step preserves the registry invariant: `actions` equals the sum of the four raw counters, and `privs` holds only allow-listed names.
- `registry.dfy`, module `Registry`: class `PlayerRegistry`, whose `players` field is the shared dictionary. `GetPlayer` is get-or-create. The row loops of `read_auth_data` and `read_player_data` are methods with `while` loops, each proved against the functions of `Ingestion`. `FindUnusedPlayers` runs the whole script: the auth pass, then the player pass, then the decision.
- `retention.dfy`, module `Retention`: `keep_player` as the literal short-circuiting `if` chain and `filter_players` as a set comprehension. `KeepPlayer` is proved to keep an ordinary name exactly when at least one of four positive signals holds: enough xp, the `citizenship` privilege, enough actions, or a login after the threshold. Both anomaly tests (lines 129 and 134) return the same `False` as the fall-through.

Database rows arrive as sequences of already-fetched tuples. The clock reading is a parameter: `DefaultConfig(now)` sets `loginThreshold` to `now - 86400 * 90`. A metadata value is an `Option<int>`, where `None` stands for text that does not read as an integer.

The model keeps these conventions of the code:

- An account with no auth data has `auth_id == 0`. The test `auth_id < 0` (line 134) therefore fires only for negative ids. Its outcome equals the fall-through's, so it changes no decision.
- `privs` is a list with `append`, so a privilege granted twice is held twice.
- Only `"citizenship"` is tested by the decision. `"staff"` is kept in `privs` but is never consulted.
- Creation rows, like auth rows, follow "last row wins": when a name has several rows, the last one decides.
- "Unknown" login and creation times are the integer `-1`. The test at line 129 treats any `creation_date < 1` as missing.

The model also records when each error happens:

- A privilege row whose id no auth row carried is a `KeyError` (line 78). It happens before any lookup, so it is also raised for a privilege that is not allow-listed. The loop method returns the index of that row. The rows before it have been applied, and the failing row has changed nothing.
- A recognised metadata key whose value does not read as an integer fails at `int(value)` (line 98). By then `get_player` (line 96) has already created the record, and the model keeps that side effect. An unrecognised key never parses its value, so its value may be anything.
- `filter_players` is a pure function of the registry, so evaluating it twice on the same registry gives the same set.

## Model

| member | source | states |
|---|---|---|
| Records.FieldOfKey | player_analyzer.py:38-51 | a dictionary key names an integer field exactly when it is that field's key; every other key names none |
| Records.SetField | player_analyzer.py:97-98 | `p[key] = value` sets exactly that field to the value; every other integer field and `privs` are unchanged |
| Records.RecomputeActions | player_analyzer.py:99-104 | afterwards `actions` equals the counter sum, and no other field changes |
| Records.EmptyPlayer | player_analyzer.py:38-51 | the default record: auth id 0, login and creation time -1, no privileges, xp, counters, played time and actions 0 |
| Records.DefaultConfig | player_analyzer.py:10-28 | the xp and actions minimums are 1; the login threshold is 90 days before `now`; the always-keep list is exactly `ADMIN`; the allow-list is exactly `citizenship` and `staff`; the recognised metadata keys are exactly those of xp, played time and the four counters; every recognised key names a stored integer field |
| Ingestion.WithPlayer | player_analyzer.py:54-57 | get-or-create: the name becomes a key; an existing entry and every other entry stay unchanged; a missing name gets exactly the default record |
| Ingestion.WithPlayerIdempotent | player_analyzer.py:54-57 | looking a name up twice leaves the same registry as looking it up once |
| Ingestion.WithPlayerKeepsInvariant | player_analyzer.py:38-57 | creating a default record preserves the registry invariant |
| Ingestion.ApplyAuthRow | player_analyzer.py:68-73 | one auth row sets its name's `auth_id` and `last_login` and leaves every other field and every other name unchanged |
| Ingestion.ApplyAuthRows | player_analyzer.py:68-73 | the auth loop, as the left fold of the single-row effect over the rows in order; every name an auth row carries is registered and no earlier name is lost |
| Ingestion.AuthIdMap | player_analyzer.py:64-71 | the `id_map` the auth loop builds, one entry per row in order; every id an auth row carries is a key |
| Ingestion.AuthRowsEffect | player_analyzer.py:68-73 | after all auth rows, a name that appears holds the id and login time of its last row and otherwise its earlier (or default) fields; a name that does not appear is unchanged or absent |
| Ingestion.AuthIdMapEffect | player_analyzer.py:64-71 | the id map takes each id to the name of the last auth row with that id; an id no row carries is absent |
| Ingestion.AuthIdMapNamesRegistered | player_analyzer.py:68-78 | every name the id map yields has a record after the auth rows, so privilege rows never create records |
| Ingestion.AuthRowsKeepInvariant | player_analyzer.py:68-73 | the auth rows preserve the registry invariant |
| Ingestion.ApplyPrivRow | player_analyzer.py:77-81 | a privilege that is not allow-listed leaves the registry unchanged; an allow-listed one is appended to the resolved name's `privs`, with nothing else changed |
| Ingestion.ApplyPrivRows | player_analyzer.py:77-81 | the privilege loop, as the left fold of the single-row effect over the rows in order, defined only when every id is known; every name that receives an allow-listed grant is registered and no earlier name is lost |
| Ingestion.Granted | player_analyzer.py:77-81 | everything granted to a name is allow-listed, and there are at most as many grants as rows |
| Ingestion.PrivRowsEffect | player_analyzer.py:77-81 | after the privilege rows, each record's `privs` is its earlier list followed by exactly the allow-listed grants for it, in row order and with duplicates; nothing else changes; a record is created only for a name that receives a grant |
| Ingestion.PrivRowsKeepInvariant | player_analyzer.py:77-81 | privilege rows preserve the registry invariant, so `privs` only ever holds allow-listed names |
| Ingestion.ApplyCreationRow | player_analyzer.py:90-91 | one creation row sets only its name's `creation_date` |
| Ingestion.ApplyCreationRows | player_analyzer.py:89-91 | the creation loop, as the left fold of the single-row effect over the rows in order; every name a creation row carries is registered and no earlier name is lost |
| Ingestion.CreationRowsEffect | player_analyzer.py:89-91 | after all creation rows, a name that appears holds the creation time of its last row and otherwise its earlier fields; any other name is unchanged or absent |
| Ingestion.CreationRowsKeepInvariant | player_analyzer.py:89-91 | creation rows preserve the registry invariant |
| Ingestion.ApplyMetaRow | player_analyzer.py:94-104 | a metadata row creates its name's record if needed and touches no other name |
| Ingestion.MetaRowEffect | player_analyzer.py:95-104 | a recognised key overwrites exactly its own field with the value; an unrecognised key changes no stored field; in both cases `privs` is kept and `actions` becomes the counter sum |
| Ingestion.ApplyMetaRows | player_analyzer.py:93-104 | the metadata loop, as the left fold of the single-row effect over the rows in order, defined only when every recognised value reads as an integer; every name a metadata row carries is registered, whatever its key, and no earlier name is lost |
| Ingestion.MetaRowsEffect | player_analyzer.py:93-104 | after all metadata rows, each stored field of a mentioned name holds the value of its last row with that recognised key (or its earlier value), and `actions` is the counter sum; an unmentioned name is unchanged |
| Ingestion.MetaRowsKeepInvariant | player_analyzer.py:93-104 | metadata rows preserve the registry invariant |
| Retention.KeepPlayer | player_analyzer.py:108-137 | the empty name and always-keep names are kept without consulting the registry; any other registered name is kept exactly when xp, citizenship, actions or a recent login gives a positive signal; every other path, anomaly tests included, drops it |
| Retention.FilterPlayers | player_analyzer.py:140-141 | the result holds exactly the registered names that are neither empty nor always-keep and show no positive signal; it never holds the empty name, an always-keep name or a name with enough xp, citizenship, enough actions or a recent login |
| Registry.PlayerRegistry.constructor | player_analyzer.py:35 | the registry starts empty |
| Registry.PlayerRegistry.GetPlayer | player_analyzer.py:54-57 | the stored map becomes the get-or-create result, and the returned record is the one now stored under the name |
| Registry.PlayerRegistry.IngestAuthRows | player_analyzer.py:64-73 | the loop leaves the registry equal to the auth rows' effect and returns the id map |
| Registry.PlayerRegistry.IngestPrivRows | player_analyzer.py:77-81 | the loop applies every privilege row, or it stops at the first row whose id is unknown, reports that row's index and leaves exactly the rows before it applied |
| Registry.PlayerRegistry.ReadAuthData | player_analyzer.py:60-81 | auth rows, then privilege rows resolved through the id map they built; the registry invariant is preserved |
| Registry.PlayerRegistry.IngestCreationRows | player_analyzer.py:89-91 | the loop leaves the registry equal to the creation rows' effect |
| Registry.PlayerRegistry.IngestMetaRow | player_analyzer.py:95-104 | one metadata row; a recognised key with an unreadable value fails after the lookup has created the record |
| Registry.PlayerRegistry.IngestMetaRows | player_analyzer.py:93-104 | the loop applies every metadata row, or it stops at the first unreadable recognised value, reports its index and leaves the earlier rows applied plus the failing name's record |
| Registry.PlayerRegistry.ReadPlayerData | player_analyzer.py:84-104 | creation rows, then metadata rows; the registry invariant is preserved |
| Registry.PlayerRegistry.FindUnusedPlayers | player_analyzer.py:144-147 | a run from an empty registry aborts exactly when a privilege row carries an unknown id or a recognised metadata value is unreadable; otherwise the registry is the auth, privilege, creation and metadata effects applied in that order, it satisfies the invariant, and the result is exactly the names to delete |

## Left out

- SQLite access is not modelled: connections, read-only URIs, queries and `fetchall` (lines 61-67, 75-76, 85-93). Rows are input sequences, and a database that cannot be opened is not represented.
- The SQLite `strftime('%s', ...)` conversion (line 89) is not modelled. Creation rows carry integers already.
- Python's `int()` grammar (lines 91, 98) is not modelled. A metadata value is already an integer or marked unreadable. A `NULL` cell, or a string compared with an integer, is not represented.
- `time.time()` (lines 12, 144) is not called. The clock reading `now` is a parameter of `DefaultConfig`, and the threshold is a field of `Config`.
- The report (lines 148-156) is not modelled: sorting for display, the age in days, formatting, printing and the two summary counts.
- Dictionary iteration order is not modelled. `FilterPlayers` returns a set, which also makes "each name once" hold by construction.
- A record is a value in the registry map, not a shared mutable dictionary. The source holds no reference across rows: each row looks its record up, writes it, and moves on. So the aliasing of `p = get_player(name)` is not visible.
- Registry.PlayerRegistry.IngestPrivRows: returns the index of the failing row, not the `KeyError` with the id it carries. The id is `privRows[failedAt].id`.
- Metadata ingestion requires (`MetaKeysWellFormed`) that every recognised metadata key name a stored integer field other than `actions`. With another key, Python would add a new dictionary entry or write a value that is recomputed at once. The script's own key list satisfies this requirement, as `DefaultConfig` shows.
- Retention.KeepPlayer: requires an ordinary name to be registered. The `KeyError` for an unregistered name is not modelled, because `filter_players`, the only caller, passes registry keys only.
