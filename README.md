# Two-tier Redis cache, connection supervisor and plugin descriptor: a Dafny model

This project models three pieces of a C# application framework:

- **The two-tier cache manager (`RedisCacheManager`).** A per-request local cache sits in front of a Redis database.
  - `Get` serves the local tier first. On a local miss it reads Redis once and copies a hit into the local tier.
  - `Set` writes only to Redis, with the expiry in minutes that the caller gave.
  - `IsSet` asks the local tier first, then Redis.
  - `Remove`, `RemoveByPattern` and `Clear` delete from both tiers.
  - No remote deletion ever touches the reserved data-protection key (compared case-insensitively). The local tier gets no such exemption.
- **The connection supervisor (`RedisConnectionWrapper`).**
  - It holds one shared connection. The connection is made when first needed and replaced when found disconnected.
  - It parses `password` and `ssl` out of the comma-separated connection string.
  - It builds the distributed-lock factory once, at construction. Building the factory connects eagerly, and a reconnect does not rebuild it.
  - It runs an action under a distributed lock.
  - It flushes every endpoint of the connection.
- **The plugin descriptor (`PluginDescriptor`).**
  - Descriptors sort by display order, then by friendly name.
  - Equality is by system name and is null-aware.
  - The hash code agrees with that equality.

Files, one module each:

- `dotnet.dfy` (`DotNet`): the .NET library behaviour the core depends on.
  - Nullable references are `Option`.
  - `int32` is a newtype.
  - String operations: `Trim`, `IndexOf`, `Split`, `ToLowerInvariant`, `OrdinalIgnoreCase` equality, `Contains`, the ordinal `String.Compare` and `Boolean.TryParse`.
- `plugin_descriptor.dfy` (`Plugins`): the descriptor as a datatype, with pure functions for its members.
- `redis_connection_wrapper.dfy` (`RedisConnection`):
  - the option parser: a loop proved against a fold that picks the last matching option;
  - the mapping from connection endpoints to lock endpoints;
  - the class `RedisConnectionWrapper`, whose fields are the connection slot, its liveness flag, a count of connects and a count of disposals, the lock factory, and logs of lock and flush commands.
- `redis_cache_manager.dfy` (`RedisCaching`): the class `RedisCacheManager<V>`.
  - `local` is the per-request tier, a map from key to value.
  - `remote` is the Redis database, a map from key to an `Entry` holding the serialized payload and the expiry in minutes.
  - `remoteReads` counts remote GET and EXISTS calls, which says when the local tier spared a round trip.

How the source is modelled:

- Each `...Async` operation and its synchronous wrapper (`XiongJun.RedisCache/RedisCacheManager.cs:170-203`) become one sequential method.
- Outside code is passed in as parameters:
  - the JSON serializer is `serialize`/`deserialize`;
  - `String.GetHashCode` is `stringHash`;
  - whether the lock algorithm grants the lock is the `acquired` flag;
  - the endpoints each connect call resolves come from `resolve`.
- `ConnectionLost` is the environment dropping the connection. It is not an operation of the source, but without it a reconnect could never happen.
- `DataProtectionKeysName` holds a value that is not part of this model. The manager takes it as the constant `reservedKey`, so every property holds whatever the name is.

Two behaviours of the code that the model keeps as written:

- A non-positive cache time is passed to Redis as given. No "no expiry" rule is applied.
- The reserved-key exemption applies only to the remote store. `RemoveByPattern` and `Clear` evict the reserved key from the local tier too.

With no index given, `GetDatabase` and `FlushDatabase` pass -1, which is the client library's value for "the default database". The model records the -1 only. Which database that resolves to (the connection string's default database, else 0) belongs to the client library and is not modelled.

## Model

| member | source | states |
|---|---|---|
| `Plugins.NewDescriptor` | XiongJun.Core/Plugins/PluginDescriptor.cs:21-26 | A new descriptor has empty supported-version, store and customer-role lists. Its string properties are null, its display order is 0 and it is not installed. |
| `Plugins.CompareTo` | XiongJun.Core/Plugins/PluginDescriptor.cs:82-85 | Compares display order first, then friendly name (ordinal, null first). The result is -1, 0 or 1, and it is 0 iff both the display order and the friendly name are equal. |
| `Plugins.CompareToByDisplayOrder` | XiongJun.Core/Plugins/PluginDescriptor.cs:84 | When display orders differ, CompareTo is negative iff this order is smaller and positive iff it is larger, whatever the friendly names. |
| `Plugins.CompareToByFriendlyName` | XiongJun.Core/Plugins/PluginDescriptor.cs:84 | When display orders are equal, CompareTo is the ordinal comparison of the friendly names. It is 0 iff the names are equal, and a null name sorts first. |
| `Plugins.CompareToReflexive` | XiongJun.Core/Plugins/PluginDescriptor.cs:82-85 | A descriptor compares equal (0) to itself. |
| `Plugins.CompareToAntisymmetric` | XiongJun.Core/Plugins/PluginDescriptor.cs:82-85 | Swapping the two descriptors negates the result. |
| `Plugins.CompareToTransitive` | XiongJun.Core/Plugins/PluginDescriptor.cs:82-85 | If a ≤ b and b ≤ c under CompareTo, then a ≤ c. |
| `Plugins.SortsBeforeIsTotalPreorder` | XiongJun.Core/Plugins/PluginDescriptor.cs:82-85 | "CompareTo ≤ 0" is reflexive, total and transitive over all descriptors, so it is a total preorder. |
| `Plugins.Equals` | XiongJun.Core/Plugins/PluginDescriptor.cs:101-104 | Equals holds only when this system name is non-null and the other object is a descriptor with that same system name. |
| `Plugins.EqualsIff` | XiongJun.Core/Plugins/PluginDescriptor.cs:101-104 | Equals is true iff this system name is non-null and the other object is a descriptor with the same system name. |
| `Plugins.EqualsReflexiveIffNamed` | XiongJun.Core/Plugins/PluginDescriptor.cs:103 | A descriptor equals itself iff its system name is non-null, so with a null name Equals is false even against itself. |
| `Plugins.EqualsSymmetricTransitive` | XiongJun.Core/Plugins/PluginDescriptor.cs:103 | Among descriptors, Equals is symmetric and transitive. |
| `Plugins.GetHashCode` | XiongJun.Core/Plugins/PluginDescriptor.cs:110-113 | GetHashCode throws exactly when the system name is null. |
| `Plugins.HashCodeConsistentWithEquals` | XiongJun.Core/Plugins/PluginDescriptor.cs:103-112 | Descriptors that are Equals have hash codes that do not throw and are equal. |
| `Plugins.ToString` | XiongJun.Core/Plugins/PluginDescriptor.cs:91-94 | ToString returns the friendly name, null included. |
| `DotNet.CompareOrdinal` | XiongJun.Core/Plugins/PluginDescriptor.cs:84 | The ordinal comparison's sign is -1, 0 or 1, and it is 0 iff the strings are equal. |
| `DotNet.CompareOrdinalAntisymmetric` | XiongJun.Core/Plugins/PluginDescriptor.cs:84 | Comparing the strings in the other order gives the negated sign. |
| `DotNet.CompareOrdinalTransitive` | XiongJun.Core/Plugins/PluginDescriptor.cs:84 | The ordinal "≤" is transitive. |
| `DotNet.Split` | XiongJun.RedisCache/RedisConnectionWrapper.cs:82 | Splitting on ',' gives at least one piece, no piece contains ',', and joining the pieces with ',' gives back the input. |
| `DotNet.SplitJoin` | XiongJun.RedisCache/RedisConnectionWrapper.cs:82 | Splitting a ','-join of ','-free pieces gives back exactly those pieces. |
| `DotNet.IndexOf` | XiongJun.RedisCache/RedisConnectionWrapper.cs:84 | IndexOf gives -1 iff the character is absent. Otherwise it gives the first position holding the character. |
| `DotNet.TrimIsInfix` | XiongJun.RedisCache/RedisConnectionWrapper.cs:84-87 | Trim returns a contiguous slice of its input that neither starts nor ends with white space. |
| `DotNet.ToLowerInvariant` | XiongJun.RedisCache/RedisConnectionWrapper.cs:84 | Lower-casing keeps the length and lowers each letter in place. |
| `DotNet.TryParseBooleanTrueIff` | XiongJun.RedisCache/RedisConnectionWrapper.cs:90 | Boolean.TryParse yields true iff the text, with white space and '\0' stripped, is "true" in any case. A failed parse yields false. |
| `DotNet.ContainsIff` | XiongJun.RedisCache/RedisCacheManager.cs:136 | Matching with `*pattern*` is substring containment: the pattern occurs at some position of the key. |
| `DotNet.EqualsIgnoreCaseIsEquivalence` | XiongJun.RedisCache/RedisCacheManager.cs:117 | The case-insensitive comparison with the reserved name is reflexive, symmetric and transitive. |
| `RedisConnection.Names` | XiongJun.RedisCache/RedisConnectionWrapper.cs:82-84 | An option names `name` when it contains '=' and the text before its first '=', trimmed and lower-cased, is `name`. Options without '=' name nothing. |
| `RedisConnection.OptionValue` | XiongJun.RedisCache/RedisConnectionWrapper.cs:87 | The value is the trimmed text after the option's first '=', so it fits in what follows that '='. |
| `RedisConnection.LastValue` | XiongJun.RedisCache/RedisConnectionWrapper.cs:82-91 | The value of the last option in the list that names `name`, or none when no option does. This is the specification of the option loop. |
| `RedisConnection.LastValueComesFromOption` | XiongJun.RedisCache/RedisConnectionWrapper.cs:82-91 | A value, when there is one, is the value of some option in the list that names the key. |
| `RedisConnection.OptionStep` | XiongJun.RedisCache/RedisConnectionWrapper.cs:84-91 | What one option does to the password and TLS flag. Only a `password` option can change the password. Only an `ssl` option, never a `password` one, can change the flag. |
| `RedisConnection.ParseLockOptions` | XiongJun.RedisCache/RedisConnectionWrapper.cs:80-93 | The option loop returns exactly the password and TLS flag of the last matching `password` and `ssl` options (the fold `LockOptionsOf`). |
| `RedisConnection.ParseOptions` | XiongJun.RedisCache/RedisConnectionWrapper.cs:80-93 | Walking the options in order, starting from an empty password and TLS off, ends with exactly the lock options the fold assigns to the whole list. |
| `RedisConnection.ApplyOption` | XiongJun.RedisCache/RedisConnectionWrapper.cs:84-91 | One loop iteration overwrites the password with a `password` option's value. It overwrites the flag with the parse of an `ssl` option's value. Any other option leaves both unchanged. |
| `RedisConnection.LockOptionsFromStep` | XiongJun.RedisCache/RedisConnectionWrapper.cs:84-91 | Each further option overwrites the password or the flag its name selects, and changes nothing else. Options with other names, or without '=', change nothing. |
| `RedisConnection.LastValueNoneIff` | XiongJun.RedisCache/RedisConnectionWrapper.cs:80-93 | No option supplies a value for a name iff no option contains '=' with that trimmed, lower-cased name. |
| `RedisConnection.LastValueAtLastMatch` | XiongJun.RedisCache/RedisConnectionWrapper.cs:82-91 | The last option that names `password` or `ssl` decides the value, so the last occurrence wins. |
| `RedisConnection.LastValueSkipsOthers` | XiongJun.RedisCache/RedisConnectionWrapper.cs:82-84 | Appending an option without '=', or with another name, leaves the value unchanged. |
| `RedisConnection.OptionSplitsAtFirstEquals` | XiongJun.RedisCache/RedisConnectionWrapper.cs:84-87 | An option splits at its first '='. The name before it is trimmed and lower-cased, and any later '=' stays in the trimmed value. |
| `RedisConnection.LockOptionsDefaults` | XiongJun.RedisCache/RedisConnectionWrapper.cs:80-81 | With no `password` option the password is the empty string. With no `ssl` option TLS is off. |
| `RedisConnection.UseSslIff` | XiongJun.RedisCache/RedisConnectionWrapper.cs:89-90 | TLS is on iff the last `ssl` option's value parses as true. A malformed or `false` value gives false. |
| `RedisConnection.LockEndPoints` | XiongJun.RedisCache/RedisConnectionWrapper.cs:98-103 | The lock factory gets exactly one lock endpoint per connection endpoint, in order, each with the same password and TLS flag. |
| `RedisConnection.FlushCommands` | XiongJun.RedisCache/RedisConnectionWrapper.cs:121-124 | There is one flush command per endpoint, in order, each for the same database. |
| `RedisConnection.FlushCommandsStep` | XiongJun.RedisCache/RedisConnectionWrapper.cs:121-124 | The commands for one more endpoint are the earlier commands followed by one for that endpoint. |
| `RedisConnection.DatabaseIndex` | XiongJun.RedisCache/RedisConnectionWrapper.cs:123-129 | With no index given, the database index is -1. Otherwise it is the given index. |
| `RedisConnection.RedisConnectionWrapper.RefreshIdempotent` | XiongJun.RedisCache/RedisConnectionWrapper.cs:55-71 | After GetConnection the slot holds a live connection, so a second GetConnection changes nothing. |
| `RedisConnection.RedisConnectionWrapper.constructor` | XiongJun.RedisCache/RedisConnectionWrapper.cs:32-37 | Construction connects eagerly: one connect, live, no disposal. The lock factory is built from the first connection's endpoints and the parsed options. |
| `RedisConnection.RedisConnectionWrapper.GetConnection` | XiongJun.RedisCache/RedisConnectionWrapper.cs:55-71 | A live connection is returned, with nothing created or disposed. Otherwise the old connection, if any, is disposed, and exactly one new connection is created, stored and returned. The lock factory is outside the frame. |
| `RedisConnection.RedisConnectionWrapper.ConnectionLost` | XiongJun.RedisCache/RedisConnectionWrapper.cs:57 | The environment drops the connection, so the `IsConnected` test that GetConnection makes fails next time. Only the liveness flag changes. |
| `RedisConnection.RedisConnectionWrapper.GetDatabase` | XiongJun.RedisCache/RedisConnectionWrapper.cs:127-130 | Returns a handle of the current (refreshed) connection, with index -1 when none is given. |
| `RedisConnection.RedisConnectionWrapper.GetEndPoints` | XiongJun.RedisCache/RedisConnectionWrapper.cs:132-135 | Returns the endpoints of the current (refreshed) connection. |
| `RedisConnection.RedisConnectionWrapper.GetServer` | XiongJun.RedisCache/RedisConnectionWrapper.cs:137-140 | Returns a server handle of the current (refreshed) connection for the given endpoint. |
| `RedisConnection.RedisConnectionWrapper.FlushDatabase` | XiongJun.RedisCache/RedisConnectionWrapper.cs:117-125 | Sends one flush to every endpoint of the connection, in order, with index -1 by default. |
| `RedisConnection.RedisConnectionWrapper.PerformActionWithLock` | XiongJun.RedisCache/RedisConnectionWrapper.cs:142-156 | Returns false and leaves the state alone when the lock is not acquired. Otherwise it applies the action exactly once and returns true. Either way it creates one lock from the factory built at construction and releases it. |
| `RedisConnection.RedisConnectionWrapper.Dispose` | XiongJun.RedisCache/RedisConnectionWrapper.cs:108-115 | Disposes the held connection, counting one disposal and leaving it not live, and disposes the lock factory. |
| `RedisCaching.RedisCacheManager.Create` | XiongJun.RedisCache/RedisCacheManager.cs:27-40 | Construction fails iff the connection string is null or empty. Otherwise the new manager holds the two tiers as given and the -1 database of the current connection. |
| `RedisCaching.RedisCacheManager.constructor` | XiongJun.RedisCache/RedisCacheManager.cs:34-39 | Stores the local tier, the connection wrapper and the database handle. |
| `RedisCaching.RedisCacheManager.Get` | XiongJun.RedisCache/RedisCacheManager.cs:49-71 | A local hit returns the local value with no remote read. Otherwise Redis is read once. A miss or a null payload gives the default and leaves the local tier unchanged, and a malformed payload gives a serialization error. A value is copied into the local tier, so a repeated Get is served locally. |
| `RedisCaching.RedisCacheManager.Set` | XiongJun.RedisCache/RedisCacheManager.cs:79-92 | With null data nothing changes. Otherwise remote[key] becomes the serialized data with expiry exactly `cacheTime` minutes. The local tier is never touched. |
| `RedisCaching.RedisCacheManager.IsSet` | XiongJun.RedisCache/RedisCacheManager.cs:99-108 | The result is "local has key OR remote has key". Redis is read only when the local tier lacks the key, and neither tier changes. |
| `RedisCaching.RedisCacheManager.Remove` | XiongJun.RedisCache/RedisCacheManager.cs:114-123 | A key equal to the reserved name, ignoring case, changes nothing. Any other key leaves both tiers and every other entry stays as it was. |
| `RedisCaching.RedisCacheManager.RemoveByPattern` | XiongJun.RedisCache/RedisCacheManager.cs:129-143 | Local entries containing the pattern are evicted and the rest are kept. Remotely, exactly the non-reserved keys containing the pattern are deleted, and the reserved key's value survives. |
| `RedisCaching.RedisCacheManager.Clear` | XiongJun.RedisCache/RedisCacheManager.cs:148-167 | The local tier is emptied. Remotely, only the keys equal to the reserved name, ignoring case, remain, and their values are unchanged. |
| `RedisCaching.RedisCacheManager.IsReserved` | XiongJun.RedisCache/RedisCacheManager.cs:117-118 | A key is reserved when it equals the data-protection key name ignoring case. Such a key has that name's length, and the name itself is reserved. This is the same test at lines 117, 139 and 163. |
| `RedisCaching.RedisCacheManager.PatternBatch` | XiongJun.RedisCache/RedisCacheManager.cs:136-141 | The keys one endpoint's pattern batch deletes. All are stored keys containing the pattern, none is reserved, and the reserved name itself is never among them. |
| `RedisCaching.RedisCacheManager.ClearBatch` | XiongJun.RedisCache/RedisCacheManager.cs:160-165 | The keys one endpoint's clear batch deletes. All are stored keys, none is reserved, and the reserved name itself is never among them. |
| `RedisCaching.RedisCacheManager.PatternSweepKeeps` | XiongJun.RedisCache/RedisCacheManager.cs:136-141 | After one pattern batch, a key remains iff it does not contain the pattern or is reserved. Remaining values are unchanged, and a second batch deletes nothing. |
| `RedisCaching.RedisCacheManager.ClearSweepKeeps` | XiongJun.RedisCache/RedisCacheManager.cs:160-165 | After one clear batch, exactly the reserved keys remain with their values, and a second batch deletes nothing. |
| `RedisCaching.RedisCacheManager.PatternBatchExample` | XiongJun.RedisCache/RedisCacheManager.cs:136-139 | Given keys `user:1`, `user:12` and `order:1`, the pattern `user` selects exactly `user:1` and `user:12`. |

## Left out

- Asynchrony and concurrency are not modelled, because every operation is taken to complete sequentially. This covers `async`/`Task`, fire-and-forget `async void`, `.Result`, `volatile` and the `lock (_lock)` double check. The model performs the check once; the second check matters only when calls overlap.
- The network calls to Redis are not modelled:
  - A connect always succeeds and gives a live connection whose endpoints `resolve` supplies. A failing or timed-out connect is not modelled.
  - `server.Keys` is read from the one `remote` map, so every endpoint sees the whole database. Cluster sharding, where each endpoint holds its own keys, is not modelled.
- When the connection has no endpoints, the model's `RemoveByPattern` and `Clear` delete nothing remotely, as the source's loop does. The model does not say whether an empty endpoint list can occur.
- The model does not decide what the manager's database handle, taken at construction, does once the wrapper has reconnected. The handle belongs to the disposed connection, and the model keeps using `remote`.
- FlushDatabase's effect on the stored data is not modelled: it is recorded only as a log of flush commands.
- JSON serialization is opaque: `serialize` and `deserialize` are parameters, and decoding may return null or raise an error.
- The RedLock algorithm is not modelled. Acquisition is the `acquired` oracle, and lock expiry and renewal are out.
- An exception raised by the action is not modelled; the action is a total function. The `using` block would release the lock and rethrow.
- Using the lock factory after Dispose is not modelled.
- Expiry timing and `TimeSpan` are not modelled; only the minutes value is stored.
- The store's rejection of non-positive expiries is not modelled. Redis refuses `SETEX` with a zero or negative time ("invalid expire time"), so in the running system such a `Set` writes nothing and the `async void Set` faults. The model's `Set` records the entry with the given minutes.
- The per-request cache's own implementation is not part of this model:
  - Its pattern removal is taken to be substring containment.
  - Its typed `Get<T>` cast is not modelled.
  - A null local tier (`Libraries.UnitTest/RedisCaheTest.cs:26`) is not modelled. With one, `Get`, `IsSet`, `RemoveByPattern` and `Clear` throw NullReferenceException before doing anything else. `Remove` of the reserved key returns without throwing. `Remove` of any other key deletes it from Redis and then throws. `Set` never touches the local tier.
- RedisCaching.RedisCacheManager.RemoveByPattern requires a pattern without Redis glob metacharacters (`*?[]\`). With such characters, Redis glob semantics would apply, and they are not modelled.
- Letter case is modelled on ASCII letters only, in `OrdinalIgnoreCase` (the reserved-key test) and in `ToLowerInvariant`. For the names `password` and `ssl` and the literals `True`/`False` this decides the same matches as .NET. For reserved-key comparisons that involve non-ASCII letters it may not.
- Plugins.CompareTo: only the sign of the ordinal comparison is modelled, and it is taken over Unicode scalar values. .NET returns a magnitude too, and it compares UTF-16 code units, which puts supplementary-plane characters before U+E000–U+FFFF.
- Plugins.CompareTo: a null argument, which throws NullReferenceException, is not modelled; the argument is always a descriptor.
- RedisCaching.RedisCacheManager.Create takes the same connection string as its wrapper, since both are built from one configuration object (`Libraries.UnitTest/RedisCaheTest.cs:20-26`); a manager over a wrapper with a different string is not modelled.
- RedisConnection.RedisConnectionWrapper.constructor: a null connection string, which makes `Split` throw, is not modelled; the wrapper takes a non-null string. The manager's null-or-empty guard is modelled.
- Parts of the descriptor are not modelled: `PluginDescriptor.Instance<T>` (dependency-injection resolution), `PluginType`, `OriginalAssemblyFile`, `ReferencedAssembly` and the constructor taking an assembly, and the JSON attributes. Its list properties are sequences and are never null.
- `RedisCacheManager.Dispose` has an empty body and is not modelled.
- Files with no logic are not modelled: the dependency registrar, the configuration classes and the interfaces.
