/**
 * The connection supervisor: one shared connection to the Redis servers,
 * created when first needed and replaced when found disconnected, plus the
 * distributed-lock factory derived once from the connection string.
 */
module RedisConnection {
  import opened DotNet

  type EndPoint = string

  /** A connection multiplexer: the `id`-th one created, with the endpoints it resolved. */
  datatype Connection = Connection(id: nat, endPoints: seq<EndPoint>)

  /** The supervisor's connection slot and its bookkeeping. */
  datatype SlotState = SlotState(connection: Option<Connection>, isConnected: bool, connects: nat, disposals: nat)

  /** The password and TLS flag the lock factory takes from the connection string. */
  datatype LockOptions = LockOptions(password: string, useSsl: bool)

  /** One endpoint of the lock factory. */
  datatype LockEndPoint = LockEndPoint(endPoint: EndPoint, password: string, ssl: bool)

  /** A logical database handle of one connection. */
  datatype Database = Database(connection: nat, index: int32)

  /** A server handle of one connection. */
  datatype Server = Server(connection: nat, endPoint: EndPoint)

  /** What the lock primitive does with the lock factory, in order. */
  datatype LockEvent =
    | LockCreated(resource: string, expiration: int, endPoints: seq<LockEndPoint>, acquired: bool)
    | LockReleased(resource: string)

  /** An administrative FLUSHDB sent to one endpoint. */
  datatype FlushCommand = FlushCommand(endPoint: EndPoint, database: int32)

  // ---------------------------------------------------------------------------
  // Connection-string options

  /** The option names `name` (trimmed, lower-cased, before the first '=') and has a value. */
  predicate Names(option: string, name: string)
    ensures Names(option, name) ==> '=' in option
  {
    '=' in option && ToLowerInvariant(Trim(option[..IndexOf(option, '=')])) == name
  }

  /** The option's value: everything after the first '=', trimmed. */
  function OptionValue(option: string): (r: string)
    requires '=' in option
    ensures IndexOf(option, '=') + 1 + |r| <= |option|
  {
    Trim(option[IndexOf(option, '=') + 1..])
  }

  /** The value of the last option that names `name`, if any. */
  function LastValue(options: seq<string>, name: string): Option<string> {
    if |options| == 0 then None
    else
      var last := options[|options| - 1];
      if Names(last, name) then Some(OptionValue(last)) else LastValue(options[..|options| - 1], name)
  }

  /** The lock options a sequence of options describes. */
  function LockOptionsFrom(options: seq<string>): LockOptions {
    LockOptions(
      LastValue(options, "password").GetOr(""),
      match LastValue(options, "ssl")
      case None => false
      case Some(v) => TryParseBoolean(v).1)
  }

  /** The lock options of a connection string: its comma-separated options. */
  function LockOptionsOf(connectionString: string): LockOptions {
    LockOptionsFrom(Split(connectionString, ','))
  }

  /**
   * The option loop of CreateRedisLockFactory: walk the comma-separated options
   * that contain '=', and let each `password` or `ssl` option overwrite the value.
   */
  method ParseLockOptions(connectionString: string) returns (password: string, useSsl: bool)
    ensures LockOptions(password, useSsl) == LockOptionsOf(connectionString)
  {
    var options := Split(connectionString, ',');
    password, useSsl := ParseOptions(options);
  }

  /** The loop itself, over the options already split. */
  method ParseOptions(options: seq<string>) returns (password: string, useSsl: bool)
    ensures LockOptions(password, useSsl) == LockOptionsFrom(options)
  {
    password := "";
    useSsl := false;
    var i := 0;
    while i < |options|
      invariant 0 <= i <= |options|
      invariant LockOptions(password, useSsl) == LockOptionsFrom(options[..i])
    {
      var option := options[i];
      LockOptionsFromStep(options, i);
      password, useSsl := ApplyOption(option, password, useSsl);
      i := i + 1;
    }
    assert options[..i] == options;
  }

  /** One iteration of the option loop: a `password` or `ssl` option overwrites its value. */
  method ApplyOption(option: string, password: string, useSsl: bool) returns (password': string, useSsl': bool)
    ensures LockOptions(password', useSsl') == OptionStep(LockOptions(password, useSsl), option)
  {
    password', useSsl' := password, useSsl;
    if '=' in option {
      var eq := IndexOf(option, '=');
      var name := ToLowerInvariant(Trim(option[..eq]));
      assert Names(option, "password") <==> name == "password";
      assert Names(option, "ssl") <==> name == "ssl";
      assert OptionValue(option) == Trim(option[eq + 1..]);
      if name == "password" {
        password' := Trim(option[eq + 1..]);
      } else if name == "ssl" {
        var (_, parsed) := TryParseBoolean(Trim(option[eq + 1..]));
        useSsl' := parsed;
      }
    }
  }

  /** What one more option does to the lock options: it overwrites the value it names, if any. */
  function OptionStep(acc: LockOptions, option: string): (r: LockOptions)
    ensures r.password != acc.password ==> Names(option, "password")
    ensures r.useSsl != acc.useSsl ==> Names(option, "ssl") && !Names(option, "password")
  {
    if Names(option, "password") then acc.(password := OptionValue(option))
    else if Names(option, "ssl") then acc.(useSsl := TryParseBoolean(OptionValue(option)).1)
    else acc
  }

  /** One more option overwrites the password or the flag it names, and nothing else. */
  lemma LockOptionsFromStep(options: seq<string>, i: nat)
    requires i < |options|
    ensures LockOptionsFrom(options[..i + 1]) == OptionStep(LockOptionsFrom(options[..i]), options[i])
  {
    assert options[..i + 1][..i] == options[..i];
  }

  /** No option names `name` exactly when there is no value for it. */
  lemma {:induction false} LastValueNoneIff(options: seq<string>, name: string)
    ensures LastValue(options, name).None? <==> forall i :: 0 <= i < |options| ==> !Names(options[i], name)
  {
    if |options| > 0 {
      var init := options[..|options| - 1];
      var last := options[|options| - 1];
      LastValueNoneIff(init, name);
      assert forall i :: 0 <= i < |init| ==> init[i] == options[i];
      if Names(last, name) {
        assert LastValue(options, name) == Some(OptionValue(last));
      } else {
        assert LastValue(options, name) == LastValue(init, name);
      }
    }
  }

  /** A value, when there is one, is the value of some option that names `name`. */
  lemma {:induction false} LastValueComesFromOption(options: seq<string>, name: string)
    ensures LastValue(options, name).Some? ==>
      exists i :: 0 <= i < |options| && Names(options[i], name) && LastValue(options, name).value == OptionValue(options[i])
  {
    if |options| > 0 && !Names(options[|options| - 1], name) {
      var init := options[..|options| - 1];
      LastValueComesFromOption(init, name);
      if LastValue(init, name).Some? {
        var i :| 0 <= i < |init| && Names(init[i], name) && LastValue(init, name).value == OptionValue(init[i]);
        assert options[i] == init[i];
      }
    }
  }

  /** The last option that names `name` decides its value; earlier ones are overwritten. */
  lemma {:induction false} LastValueAtLastMatch(options: seq<string>, name: string, i: int)
    requires 0 <= i < |options| && Names(options[i], name)
    requires forall j :: i < j < |options| ==> !Names(options[j], name)
    ensures LastValue(options, name) == Some(OptionValue(options[i]))
  {
    if i < |options| - 1 {
      var init := options[..|options| - 1];
      assert forall j :: i < j < |init| ==> init[j] == options[j];
      LastValueAtLastMatch(init, name, i);
    }
  }

  /** Options without '=' and options with other names do not affect the value. */
  lemma LastValueSkipsOthers(options: seq<string>, option: string, name: string)
    requires !Names(option, name)
    ensures LastValue(options + [option], name) == LastValue(options, name)
  {
    assert (options + [option])[..|options|] == options;
  }

  /**
   * An option splits at its FIRST '=': the name before it is trimmed and
   * lower-cased and any later '=' stays in the value.
   */
  lemma OptionSplitsAtFirstEquals(key: string, value: string)
    requires '=' !in key
    ensures '=' in key + "=" + value
    ensures Names(key + "=" + value, ToLowerInvariant(Trim(key)))
    ensures OptionValue(key + "=" + value) == Trim(value)
  {
    var option := key + "=" + value;
    assert option == key + ['='] + value;
    assert option[|key|] == '=';
    IndexOfAfterPrefix(key, '=', value);
    assert option[..|key|] == key;
    assert option[|key| + 1..] == value;
  }

  /** The defaults: no `password` option gives "", no `ssl` option gives false. */
  lemma LockOptionsDefaults(connectionString: string)
    ensures (forall i :: 0 <= i < |Split(connectionString, ',')| ==> !Names(Split(connectionString, ',')[i], "password"))
      ==> LockOptionsOf(connectionString).password == ""
    ensures (forall i :: 0 <= i < |Split(connectionString, ',')| ==> !Names(Split(connectionString, ',')[i], "ssl"))
      ==> !LockOptionsOf(connectionString).useSsl
  {
    LastValueNoneIff(Split(connectionString, ','), "password");
    LastValueNoneIff(Split(connectionString, ','), "ssl");
  }

  /** TLS is on exactly when the last `ssl` option is "true" in any ASCII case; malformed means off. */
  lemma UseSslIff(connectionString: string)
    ensures LockOptionsOf(connectionString).useSsl <==>
      LastValue(Split(connectionString, ','), "ssl").Some? &&
      EqualsIgnoreCase(TrimWhiteSpaceAndNull(LastValue(Split(connectionString, ','), "ssl").value), "True")
  {
    var v := LastValue(Split(connectionString, ','), "ssl");
    if v.Some? {
      TryParseBooleanTrueIff(v.value);
    }
  }

  /** The lock factory's endpoints: one per connection endpoint, in order, sharing password and flag. */
  function LockEndPoints(endPoints: seq<EndPoint>, options: LockOptions): (r: seq<LockEndPoint>)
    ensures |r| == |endPoints|
    ensures forall i :: 0 <= i < |r| ==> r[i] == LockEndPoint(endPoints[i], options.password, options.useSsl)
  {
    if |endPoints| == 0 then []
    else [LockEndPoint(endPoints[0], options.password, options.useSsl)] + LockEndPoints(endPoints[1..], options)
  }

  /** One FLUSHDB per endpoint, in order. */
  function FlushCommands(endPoints: seq<EndPoint>, database: int32): (r: seq<FlushCommand>)
    ensures |r| == |endPoints|
    ensures forall i :: 0 <= i < |r| ==> r[i] == FlushCommand(endPoints[i], database)
  {
    if |endPoints| == 0 then []
    else FlushCommands(endPoints[..|endPoints| - 1], database) + [FlushCommand(endPoints[|endPoints| - 1], database)]
  }

  /** The commands for one endpoint more are the earlier ones followed by that endpoint's. */
  lemma FlushCommandsStep(endPoints: seq<EndPoint>, i: nat, database: int32)
    requires i < |endPoints|
    ensures FlushCommands(endPoints[..i + 1], database) ==
      FlushCommands(endPoints[..i], database) + [FlushCommand(endPoints[i], database)]
  {
    assert endPoints[..i + 1][..i] == endPoints[..i];
  }

  /** The database index used when the caller gives none. */
  function DatabaseIndex(db: Option<int32>): (r: int32)
    ensures db.None? ==> r == -1
    ensures db.Some? ==> r == db.value
  {
    db.GetOr(-1)
  }

  // ---------------------------------------------------------------------------
  // The supervisor

  class RedisConnectionWrapper {
    const connectionString: string
    /** The endpoints the k-th connect resolves (the connect call itself is not modelled). */
    const resolve: nat -> seq<EndPoint>

    var connection: Option<Connection>
    var isConnected: bool
    var connects: nat
    var disposals: nat
    var lockFactory: seq<LockEndPoint>
    var lockFactoryDisposed: bool
    var lockEvents: seq<LockEvent>
    var flushes: seq<FlushCommand>

    function Current(): SlotState
      reads this
    {
      SlotState(connection, isConnected, connects, disposals)
    }

    /** The slot holds the most recently created connection, or nothing before the first. */
    ghost predicate SlotValid()
      reads this
    {
      && connection == (if connects == 0 then None else Some(Connection(connects - 1, resolve(connects - 1))))
      && (connection.None? ==> !isConnected)
    }

    /** Connected once, and the lock factory is the one built from the first connection. */
    ghost predicate Valid()
      reads this
    {
      && SlotValid()
      && connects >= 1
      && lockFactory == LockEndPoints(resolve(0), LockOptionsOf(connectionString))
    }

    /**
     * What GetConnection does to the slot: a live connection is kept; otherwise
     * the old one, if any, is disposed and exactly one new one is created.
     */
    function Refresh(s: SlotState): SlotState {
      if s.connection.Some? && s.isConnected then s
      else SlotState(
        Some(Connection(s.connects, resolve(s.connects))),
        true,
        s.connects + 1,
        s.disposals + (if s.connection.Some? then 1 else 0))
    }

    /** After Refresh the connection is live, so a second GetConnection changes nothing. */
    lemma RefreshIdempotent(s: SlotState)
      ensures Refresh(s).connection.Some? && Refresh(s).isConnected
      ensures Refresh(Refresh(s)) == Refresh(s)
    {
    }

    /** Construction parses the options and, through GetEndPoints, connects eagerly. */
    constructor (connectionString: string, resolve: nat -> seq<EndPoint>)
      ensures Valid()
      ensures this.connectionString == connectionString && this.resolve == resolve
      ensures connection == Some(Connection(0, resolve(0))) && isConnected
      ensures connects == 1 && disposals == 0
      ensures lockFactory == LockEndPoints(resolve(0), LockOptionsOf(connectionString))
      ensures !lockFactoryDisposed && lockEvents == [] && flushes == []
    {
      this.connectionString := connectionString;
      this.resolve := resolve;
      connection := None;
      isConnected := false;
      connects := 0;
      disposals := 0;
      lockFactory := [];
      lockFactoryDisposed := false;
      lockEvents := [];
      flushes := [];
      new;
      var password, useSsl := ParseLockOptions(connectionString);
      var endPoints := GetEndPoints();
      lockFactory := LockEndPoints(endPoints, LockOptions(password, useSsl));
    }

    /** The current connection, created or replaced when it is missing or disconnected. */
    method GetConnection() returns (c: Connection)
      requires SlotValid()
      modifies this`connection, this`isConnected, this`connects, this`disposals
      ensures SlotValid()
      ensures Current() == Refresh(old(Current()))
      ensures connection == Some(c) && isConnected
      ensures old(connection.Some? && isConnected) ==>
        c == old(connection.value) && connects == old(connects) && disposals == old(disposals)
      ensures !old(connection.Some? && isConnected) ==>
        c.id == old(connects) && connects == old(connects) + 1 &&
        disposals == old(disposals) + (if old(connection.Some?) then 1 else 0)
    {
      if connection.Some? && isConnected {
        return connection.value;
      }
      // The locked re-check sees the same state when calls are sequential.
      if connection.Some? {
        disposals := disposals + 1;
      }
      c := Connection(connects, resolve(connects));
      connection := Some(c);
      connects := connects + 1;
      isConnected := true;
    }

    /** The environment drops the connection (a network failure); not an operation of the source. */
    method ConnectionLost()
      modifies this`isConnected
      ensures !isConnected
    {
      isConnected := false;
    }

    method GetDatabase(db: Option<int32>) returns (d: Database)
      requires SlotValid()
      modifies this`connection, this`isConnected, this`connects, this`disposals
      ensures SlotValid()
      ensures Current() == Refresh(old(Current()))
      ensures d == Database(connection.value.id, DatabaseIndex(db))
    {
      var c := GetConnection();
      d := Database(c.id, db.GetOr(-1));
    }

    method GetEndPoints() returns (endPoints: seq<EndPoint>)
      requires SlotValid()
      modifies this`connection, this`isConnected, this`connects, this`disposals
      ensures SlotValid()
      ensures Current() == Refresh(old(Current()))
      ensures endPoints == connection.value.endPoints
    {
      var c := GetConnection();
      endPoints := c.endPoints;
    }

    method GetServer(endPoint: EndPoint) returns (server: Server)
      requires SlotValid()
      modifies this`connection, this`isConnected, this`connects, this`disposals
      ensures SlotValid()
      ensures Current() == Refresh(old(Current()))
      ensures server == Server(connection.value.id, endPoint)
    {
      var c := GetConnection();
      server := Server(c.id, endPoint);
    }

    /** Sends FLUSHDB for database `db` (default -1) to every endpoint of the connection. */
    method FlushDatabase(db: Option<int32>)
      requires SlotValid()
      modifies this`connection, this`isConnected, this`connects, this`disposals, this`flushes
      ensures SlotValid()
      ensures Current() == Refresh(old(Current()))
      ensures flushes == old(flushes) + FlushCommands(connection.value.endPoints, DatabaseIndex(db))
    {
      var endPoints := GetEndPoints();
      ghost var refreshed := Current();
      var i := 0;
      while i < |endPoints|
        invariant 0 <= i <= |endPoints|
        invariant SlotValid() && Current() == refreshed
        invariant endPoints == connection.value.endPoints
        invariant flushes == old(flushes) + FlushCommands(endPoints[..i], DatabaseIndex(db))
      {
        var server := GetServer(endPoints[i]);
        FlushCommandsStep(endPoints, i, DatabaseIndex(db));
        flushes := flushes + [FlushCommand(server.endPoint, db.GetOr(-1))];
        i := i + 1;
      }
      assert endPoints[..i] == endPoints;
    }

    /**
     * Runs `action` under a distributed lock on `resource`. Whether the lock is
     * acquired is decided by the lock algorithm, here the oracle `acquired`.
     * The lock is created from the factory built at construction and released
     * (disposed) on both paths.
     */
    method PerformActionWithLock<S>(resource: string, expiration: int, acquired: bool, action: S -> S, state: S)
      returns (performed: bool, result: S)
      modifies this`lockEvents
      ensures performed == acquired
      ensures result == (if acquired then action(state) else state)
      ensures lockEvents == old(lockEvents) + [LockCreated(resource, expiration, lockFactory, acquired), LockReleased(resource)]
    {
      lockEvents := lockEvents + [LockCreated(resource, expiration, lockFactory, acquired)];
      if !acquired {
        performed, result := false, state;
      } else {
        result := action(state);
        performed := true;
      }
      lockEvents := lockEvents + [LockReleased(resource)];
    }

    /** Disposes the connection (the slot keeps it, disconnected) and the lock factory. */
    method Dispose()
      requires SlotValid()
      modifies this`isConnected, this`disposals, this`lockFactoryDisposed
      ensures SlotValid()
      ensures !isConnected
      ensures disposals == old(disposals) + (if connection.Some? then 1 else 0)
      ensures lockFactoryDisposed
    {
      if connection.Some? {
        disposals := disposals + 1;
        isConnected := false;
      }
      lockFactoryDisposed := true;
    }
  }
}
