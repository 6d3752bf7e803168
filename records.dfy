/** The per-account record of the player analyzer, its integer-valued keys,
    and the configuration constants that drive ingestion and retention. */
module Records {

  datatype Option<+T> = None | Some(value: T)

  /** One account's merged facts. The analyzer keeps these as a dictionary
      keyed by the strings that KeyOfField lists; `privs` is a list, so a
      privilege granted twice is held twice. */
  datatype Player = Player(
    authId: int,
    lastLogin: int,
    creationDate: int,
    privs: seq<string>,
    xp: int,
    diggedNodes: int,
    crafted: int,
    placedNodes: int,
    inflictedDamage: int,
    playedTime: int,
    actions: int)

  /** The integer-valued entries of a record. */
  datatype IntField =
    | AuthId | LastLogin | CreationDate | Xp | DiggedNodes
    | Crafted | PlacedNodes | InflictedDamage | PlayedTime | Actions

  /** The dictionary key under which the analyzer stores a field. */
  function KeyOfField(f: IntField): string
  {
    match f
    case AuthId => "auth_id"
    case LastLogin => "last_login"
    case CreationDate => "creation_date"
    case Xp => "xp"
    case DiggedNodes => "digged_nodes"
    case Crafted => "crafted"
    case PlacedNodes => "placed_nodes"
    case InflictedDamage => "inflicted_damage"
    case PlayedTime => "played_time"
    case Actions => "actions"
  }

  /** The field a dictionary key names, if it names an integer field. */
  function FieldOfKey(key: string): (f: Option<IntField>)
    ensures f.Some? ==> KeyOfField(f.value) == key
    ensures f.None? ==> forall g :: KeyOfField(g) != key
  {
    if key == "auth_id" then Some(AuthId)
    else if key == "last_login" then Some(LastLogin)
    else if key == "creation_date" then Some(CreationDate)
    else if key == "xp" then Some(Xp)
    else if key == "digged_nodes" then Some(DiggedNodes)
    else if key == "crafted" then Some(Crafted)
    else if key == "placed_nodes" then Some(PlacedNodes)
    else if key == "inflicted_damage" then Some(InflictedDamage)
    else if key == "played_time" then Some(PlayedTime)
    else if key == "actions" then Some(Actions)
    else None
  }

  function GetField(p: Player, f: IntField): int
  {
    match f
    case AuthId => p.authId
    case LastLogin => p.lastLogin
    case CreationDate => p.creationDate
    case Xp => p.xp
    case DiggedNodes => p.diggedNodes
    case Crafted => p.crafted
    case PlacedNodes => p.placedNodes
    case InflictedDamage => p.inflictedDamage
    case PlayedTime => p.playedTime
    case Actions => p.actions
  }

  /** Overwrites one integer entry of a record (`p[key] = value`). */
  function SetField(p: Player, f: IntField, v: int): (q: Player)
    ensures GetField(q, f) == v
    ensures forall g :: g != f ==> GetField(q, g) == GetField(p, g)
    ensures q.privs == p.privs
  {
    match f
    case AuthId => p.(authId := v)
    case LastLogin => p.(lastLogin := v)
    case CreationDate => p.(creationDate := v)
    case Xp => p.(xp := v)
    case DiggedNodes => p.(diggedNodes := v)
    case Crafted => p.(crafted := v)
    case PlacedNodes => p.(placedNodes := v)
    case InflictedDamage => p.(inflictedDamage := v)
    case PlayedTime => p.(playedTime := v)
    case Actions => p.(actions := v)
  }

  /** The four raw activity counters whose sum is the record's `actions`. */
  predicate IsCounter(f: IntField)
  {
    f == DiggedNodes || f == Crafted || f == PlacedNodes || f == InflictedDamage
  }

  /** The derived entry `actions` equals the sum of the four raw counters. */
  predicate ActionsConsistent(p: Player)
  {
    p.actions == p.diggedNodes + p.crafted + p.placedNodes + p.inflictedDamage
  }

  /** Recomputes `actions` from the four raw counters. */
  function RecomputeActions(p: Player): (q: Player)
    ensures ActionsConsistent(q)
    ensures forall g :: g != Actions ==> GetField(q, g) == GetField(p, g)
    ensures q.privs == p.privs
  {
    p.(actions := p.diggedNodes + p.crafted + p.placedNodes + p.inflictedDamage)
  }

  /** The record a name gets when it is first mentioned: no auth id (0),
      login and creation time unknown (-1), no privileges, all counters 0. */
  function EmptyPlayer(): (p: Player)
    ensures p.privs == []
    ensures forall f :: GetField(p, f) == (if f == LastLogin || f == CreationDate then -1 else 0)
  {
    Player(0, -1, -1, [], 0, 0, 0, 0, 0, 0, 0)
  }

  /** Every privilege a record holds is on the allow-list. */
  predicate PrivsAllowed(p: Player, specialPrivs: seq<string>)
  {
    forall i :: 0 <= i < |p.privs| ==> p.privs[i] in specialPrivs
  }

  /** The analyzer's module-level constants, made explicit. */
  datatype Config = Config(
    minXp: int,
    minActions: int,
    loginThreshold: int,
    specialPrivs: seq<string>,
    keepList: seq<string>,
    metaKeysInt: seq<string>)

  /** Logins this many seconds old or older count as inactive (90 days). */
  const InactivityWindow: int := 86400 * 90

  /** Every recognised metadata key names a stored integer field other
      than the derived `actions`. */
  predicate MetaKeysWellFormed(cfg: Config)
  {
    forall k :: k in cfg.metaKeysInt ==> FieldOfKey(k).Some? && FieldOfKey(k).value != Actions
  }

  /** The constants the analyzer runs with, given the clock reading `now`
      (whole seconds since the epoch) taken at start-up. */
  function DefaultConfig(now: int): (cfg: Config)
    ensures MetaKeysWellFormed(cfg)
    ensures cfg.minXp == 1 && cfg.minActions == 1
    ensures cfg.loginThreshold == now - InactivityWindow
    ensures cfg.keepList == ["ADMIN"]
    ensures "citizenship" in cfg.specialPrivs && "staff" in cfg.specialPrivs && |cfg.specialPrivs| == 2
    ensures forall f :: IsCounter(f) || f == Xp || f == PlayedTime <==> KeyOfField(f) in cfg.metaKeysInt
  {
    Config(
      1,
      1,
      now - 86400 * 90,
      ["citizenship", "staff"],
      ["ADMIN"],
      ["crafted", "digged_nodes", "inflicted_damage", "placed_nodes", "played_time", "xp"])
  }
}
