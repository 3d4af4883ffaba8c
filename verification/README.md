# Webda verification models

Dafny models of the parts of Webda that carry their own algorithms, with proofs about them. Each module follows one
source file (a few files take two modules). Code that works by changing state is a class or a method with loops, tied
by its contract to a function of the old state; what the code promises is then proved about those functions, over every
input or every run.

Main results, hardest first:

- **Local pub/sub** (`SocketFrames`, `SocketNetwork`). For any split of a byte stream into chunks the frame reader emits
  the same payloads. Over every run of a broker and its clients on byte streams, with every chunking, each peer's
  dispatches follow the broker's log exactly, in order, once each; the log holds what the steps asked to publish, and
  every byte written is read or on the way.
- **gRPC stream decoder** (`GrpcStream`). It is right exactly when every chunk boundary that falls inside a header is
  harmless: the frame does not start at a boundary itself and is as long as the one before it. Anything else delivers
  something other than what was sent.
- **Method cache** (`CacheStorage`, `CacheHistory`, `CacheKeys`, `CacheDecorator`). The store with its lazy expiry,
  collection and eviction refines a list of live entries, and every read is what the operations before it say: the last
  write of its key, within its lifetime and the size bound. Keys can be decoded into the kinds and texts of the
  arguments. The decorator is transparent (sync, async after `await`, nested calls included) for all pure methods in all
  runs exactly when an argument's text determines the argument, making it never throws, and no two methods can have a
  key in common. The last follows from the method names alone when they differ and none continues another one with `$`
  and an unfinished argument. The first fails for 0 and -0, and the last for an override that calls what it overrides.
- **Schema tools** (`ProtoNames`, `ProtoGenerator`, `SchemaDefinitions`). Proto generation terminates on every finite
  registry, cyclic references included, and its result is closed. Each message follows every schema that is asked for
  under its name exactly when those schemas agree in their fields' names, rules and types (where references resolve;
  `A/Post` and `B/Post` need not agree). Definition hoisting leaves every local reference resolved exactly when none has
  a name that `in` inherits from `Object.prototype` and nothing defines, leaves no block outside the root's exactly when
  the input has none under a member named `$ref`, and is idempotent exactly when it does not take a definition called
  `$ref` for a reference, or does without harm; a property called `definitions` can make it do so.
- **Queries** (`WebdaQL`, `MongoFilter`, `SqlExpression`, `SqlPages`). The Mongo filter never loses a document;
  it means the expression with, at every AND, the last conjunct on each key, so it is exact on a document exactly when
  those imply the others. The SQL text of a query is one that the database takes exactly when all literals are texts
  (beside a number or a boolean it says `AS`), and is then read, precedence included, as the translated tree; it selects
  what the evaluator accepts on every document on which the comparisons agree, and for each comparison those documents
  are given (a missing attribute under `!=` is not among them). `iterate` never carries its continuation
  token, so it is right exactly when the result is shorter than a page; with a printer that carries it, it is right always.
- **Queues and schedulers** (`PostgresQueue`, `FileQueue`, `BuildHooks`). Visibility windows, disjoint batches and
  conservation of messages over every interleaving, with tables and folders told from the steps alone; no change lost by
  build-hook coalescing.
- **Pools** (`StableStringify`, `PgPool`). The configuration key is equal exactly for configurations that are equal up to
  key order, functions aside; pools are shared, counted and ended accordingly in every matched run.
- **Compile skip** (`CompileCache`). Over every run of edits, replaced files and caches, failures and restarts: a compile
  that the guards let skip is rightly skipped exactly when the file on disk was generated from sources that make the same
  module as those it was stamped with, or was put there with an honest stamp; one that is skipped because the same
  compiler has compiled before looks at nothing, and its exact condition is given too. Inputs that break both are shown.
- **Text sniffing** (`BodyCapture`). On UTF-8 (sections 3 and 4 of RFC 3629) the verdict is right for every sample limit.

`dafny verify dfyconfig.toml` checks the whole project.

Where code and its comments disagree, the models follow the code:

- `packages/cache/src/cache.ts` calls its eviction LRU; reads do not reorder, so it evicts the least recently written entry.
- `packages/postgres/src/sqlstore.ts` iterates by continuation token; `packages/ql/src/query.ts:802` prints the query as it
  was parsed, so neither the token nor the default limit of 100 reaches the next query.
- `packages/compiler/src/module.ts` says unresolvable references are removed; `k in allDefs` and `raw in allDefs` also see
  inherited names such as `toString`.
- `packages/grpc/src/grpc-stream.ts` reads a new length only when 5 bytes remain, so with 1 to 4 bytes left it goes on with
  the length of the frame before.

## Model

| member | source | states |
|---|---|---|
| Bytes.ReadWrite | packages/fs/src/socketpubsub.ts:345-360 | reading a big-endian 32-bit length gives back what was written, whatever follows it |
| Bytes.WriteRead | packages/fs/src/socketpubsub.ts:345-360 | every 4 bytes are the encoding of the number they read as |
| Bytes.BigEndian | packages/fs/src/socketpubsub.ts:345-360 | of two lengths the smaller one has the smaller bytes, the first difference deciding |
| SocketFrames.DecodeSplits | packages/fs/src/socketpubsub.ts:355-367 | the reader's loop loses no byte: the emitted payloads' frames and the kept rest make up the input, and the rest holds no whole frame |
| SocketFrames.DecodeUnique | packages/fs/src/socketpubsub.ts:343-367 | frames followed by an incomplete rest decode to exactly those payloads and that rest |
| SocketFrames.DecodeAppend | packages/fs/src/socketpubsub.ts:355-367 | feeding a and then b is feeding a followed by b |
| SocketFrames.FramesPrefix | packages/fs/src/socketpubsub.ts:343-347 | framing is prefix-free: what has been decoded of a stream of frames is a prefix of the payloads sent |
| SocketFrames.FrameReader.OnData | packages/fs/src/socketpubsub.ts:355-367 | one chunk through the stateful reader: emitted frames plus pending bytes are the old pending bytes plus the chunk, and no whole frame stays pending |
| SocketFrames.ReaderIgnoresChunking | packages/fs/src/socketpubsub.ts:355-367 | for every list of chunks the reader ends as if the bytes had come at once |
| SocketFrames.ReaderRoundTrip | packages/fs/src/socketpubsub.ts:343-367 | however frames are cut into chunks, exactly the framed payloads come out in order and the pending bytes are the undecoded suffix |
| SocketNetwork.BrokerService.Accept | packages/fs/src/socketpubsub.ts:146-152 | a new connection gets an empty stream and an empty pending buffer, and nothing else changes |
| SocketNetwork.BrokerService.Fanout | packages/fs/src/socketpubsub.ts:213-219 | the loop appends one frame to every subscriber's stream but the excepted one's |
| SocketNetwork.BrokerService.OnFrame | packages/fs/src/socketpubsub.ts:148-151 | a frame from a client goes to every other client and is dispatched locally |
| SocketNetwork.BrokerService.OnData | packages/fs/src/socketpubsub.ts:146-367 | a chunk from a client relays exactly the frames it completes, in order, and keeps the rest pending |
| SocketNetwork.BrokerService.SendMessage | packages/fs/src/socketpubsub.ts:256-262 | the message is dispatched locally, and every client's stream, and nothing else, grows by exactly its frame |
| SocketNetwork.StepKeeps | packages/fs/src/socketpubsub.ts:141-271 | every step of a client or the broker, with any chunk size, keeps the network's invariant |
| SocketNetwork.PublishedAsAsked | packages/fs/src/socketpubsub.ts:213-271 | in every run the broker's own messages in its log are, in order, exactly those that the steps ask it to publish, and each client has published exactly what the steps ask of it |
| SocketNetwork.BytesAreConserved | packages/fs/src/socketpubsub.ts:141-271 | in every run, for each client and both directions, the bytes read by the steps and those on the way add up to the frames written |
| SocketNetwork.ReadOutIsQuiet | packages/fs/src/socketpubsub.ts:141-271 | nothing is on the way for a client exactly when the steps have read all that was written in both directions |
| SocketNetwork.ReadsGoOn | packages/fs/src/socketpubsub.ts:141-367 | while something is on the way for a client, a read of it is possible |
| SocketNetwork.DispatchesFollowTheLog | packages/fs/src/socketpubsub.ts:141-271 | in every run, for each client: the broker's log of its messages followed by the bytes still on the way up is what it published, and its dispatches of others' messages followed by the bytes on the way down are the log without its own |
| SocketNetwork.QuietMeansDelivered | packages/fs/src/socketpubsub.ts:213-271 | once nothing is in flight for a client, it has dispatched every logged message exactly once, others' in log order and its own in publishing order |
| GrpcStream.Stream.OnDataEvent | packages/grpc/src/grpc-stream.ts:62-82 | the handler with its while loop over `chunk` and `messageLength` computes the decoder step, throws on a short first read included |
| GrpcStream.Send | packages/grpc/src/grpc-stream.ts:128-135 | the bytes built by `send` are the Length-Prefixed-Message of the gRPC over HTTP/2 protocol with flag 0 |
| GrpcStream.DrainFrom | packages/grpc/src/grpc-stream.ts:70-81 | entered in step with the stream the loop stays in step, but keeps the previous frame's length when it stops inside a header |
| GrpcStream.StaysSynced | packages/grpc/src/grpc-stream.ts:62-82 | after any prefix of a header-respecting split the decoder has delivered exactly the whole frames received |
| GrpcStream.GetsDoomed | packages/grpc/src/grpc-stream.ts:62-82 | a split that does not respect the headers leads to a wrong delivery, a throw, or a decoder that will never deliver the frame's body |
| GrpcStream.StaysDoomed | packages/grpc/src/grpc-stream.ts:62-82 | no later data repairs such a decoder |
| GrpcStream.DeliversExactlyWhenHeadersRespected | packages/grpc/src/grpc-stream.ts:62-82 | for all messages and splits into non-empty chunks: delivered is what was sent if and only if every boundary inside a header is harmless |
| GrpcStream.NoCutInAHeaderIsEnough | packages/grpc/src/grpc-stream.ts:62-135 | what `send` wrote arrives whole for every split without a boundary inside a 5-byte header |
| GrpcStream.StaleLengthLosesMessages | packages/grpc/src/grpc-stream.ts:75-80 | a concrete split of two frames that delivers an empty body instead of the second message |
| CacheStorage.Storage.HasCachedMethod | packages/cache/src/cache.ts:115-131 | found exactly when there is an entry at most `ttl` old (any, without a `ttl`); an older one is removed and counted, and no other entry is touched |
| CacheStorage.Storage.GetCachedMethod | packages/cache/src/cache.ts:173-176 | the value of the entry for the key, expired or not, and none exactly when there is no entry |
| CacheStorage.Storage.SetCachedMethod | packages/cache/src/cache.ts:143-165 | the store after a write: old entry gone, first entry evicted if the rest fill the store, new entry last, counters right |
| CacheStorage.Storage.Scan | packages/cache/src/cache.ts:187-209 | deleting while iterating keeps exactly the entries not selected, in order, and counts the dropped ones |
| CacheStorage.Storage.DeleteCachedMethod | packages/cache/src/cache.ts:184-195 | exactly the entries go whose key starts with what is before a trailing `$`, or equals a key without one |
| CacheStorage.Storage.GarbageCollect | packages/cache/src/cache.ts:200-214 | left are exactly the entries at most `ttl` old (all, without a `ttl`), and the others are counted |
| CacheStorage.WriteMeans | packages/cache/src/cache.ts:143-165 | for every key, what a lookup gives after a write: the written key its value, the least recently written other key nothing if the others fill the store, all others what they had |
| CacheStorage.WrittenLives | packages/cache/src/cache.ts:115-165 | right after a write, asking at any time finds the key, with its value, if and only if there is no `ttl` or the write is at most `ttl` milliseconds old |
| CacheStorage.OldestAliveAllAlive | packages/cache/src/cache.ts:143-165 | timestamps follow insertion order, so expired entries form a prefix |
| CacheStorage.WriteSeesOnlyLiveEntries | packages/cache/src/cache.ts:143-165 | on live entries a write acts as it would on a store that holds live entries only |
| CacheStorage.StepRefines | packages/cache/src/cache.ts:98-214 | each operation keeps distinct keys, order and size bound, and shows to readers as the specification's step |
| CacheStorage.StoreRefinesLiveView | packages/cache/src/cache.ts:98-214 | in every run with a monotone clock all reads answer as a store of live entries would, and the ordered live entries agree |
| CacheHistory.ReadsFollowTheOperations | packages/cache/src/cache.ts:98-214 | every read of every run, told from the list of operations alone: the value of the key's last write, unless it was deleted, is older than `ttl`, or keys written since and still there have filled the store |
| CacheHistory.ReadGivesLastWrite | packages/cache/src/cache.ts:98-214 | a read gives nothing but the last write of its key, not deleted since and at most `ttl` old; it does give it if fewer other keys than `maxSize` were written since, or there is no `maxSize` |
| CacheStorage.StatsConserve | packages/cache/src/cache.ts:99-214 | with statistics on, sets = stored + evictions + overwritten or deleted, over every run |
| CacheKeys.ArgumentsSimpleKey | packages/cache/src/cache.ts:464-503 | the loop gives the concatenated parts, or what the first argument without a text leads to: no key, or an exception from its own `toString` |
| CacheKeys.NumberRoundTrip | packages/cache/src/cache.ts:474-497 | the decimal length prefix can be read back, up to its colon |
| CacheKeys.KeyRoundTrip | packages/cache/src/cache.ts:464-503 | a decoder recovers the kinds and texts of the arguments from their key |
| CacheKeys.KeyIsInjective | packages/cache/src/cache.ts:464-503 | argument lists that differ in kinds or texts have different keys |
| CacheKeys.DollarInsideKey | packages/cache/src/cache.ts:464-533 | a `$` inside an argument key always lies inside the text of an argument |
| CacheKeys.KeysCollideExactlyWhenConfusable | packages/cache/src/cache.ts:529-533 | over arguments of all kinds and texts, two different method names can produce one key if and only if one is the other, a `$` and a string that ends inside a text that can hold a `$` |
| CacheKeys.NoColonNotConfusable | packages/cache/src/cache.ts:529-533 | names without a colon never share a key, names with `$` included |
| CacheKeys.MethodKeysAreInjective | packages/cache/src/cache.ts:529-533 | among names that cannot be confused the key determines the name and the arguments' kinds and texts |
| CacheKeys.ColonNamesCollide | packages/cache/src/cache.ts:529-533 | two concrete calls of methods `f` and `f$S1:` share a key |
| CacheDecorator.CacheMap.HasCachedMethod | packages/cache/src/cache.ts:274-284 | found exactly when the instance has a live entry, which a read then gives; after a miss a read gives nothing; other instances are left alone and hits counted |
| CacheDecorator.CacheMap.SetCachedMethod | packages/cache/src/cache.ts:295-306 | creates the instance's store if needed, writes to it, counts a miss for a new entry |
| CacheDecorator.CacheMap.GarbageCollect | packages/cache/src/cache.ts:311-315 | collects every instance's store |
| CacheDecorator.EnterIsFaithful | packages/cache/src/cache.ts:563-572 | when keys determine calls, a call entered from any reachable state is given its method's outcome, the promise of a running evaluation of the same call, or an evaluation of its own |
| CacheDecorator.LeaveKeeps | packages/cache/src/cache.ts:606-615 | what a sync evaluation stores on its return is the value of its own call, whatever happened in between |
| CacheDecorator.SettleKeeps | packages/cache/src/cache.ts:582-603 | the handlers of an evaluation leave entries that are values of their own key or running evaluations of it |
| CacheDecorator.ClearKeeps | packages/cache/src/cache.ts:633-682 | clear, clearAll and collection, over-deletion by prefix included, keep that too |
| CacheDecorator.CacheIsTransparent | packages/cache/src/cache.ts:563-682 | when keys determine calls: in every run of calls (nested ones included), handlers, clears, collections, expiries, evictions and refusals every call is given its method's outcome or the promise or evaluation of the same call, and no entry holds the promise of a finished evaluation |
| CacheDecorator.RejectionIsNotCached | packages/cache/src/cache.ts:588-602 | a rejected or refused evaluation is out of the cache when its handler has run |
| CacheDecorator.NextCallIsAHit | packages/cache/src/cache.ts:563-616 | the same call after a return, a suspension or a resolved promise is given the value or the promise instead of being evaluated, exactly while that is at most `ttl` old |
| CacheDecorator.ClearedIsEvaluated | packages/cache/src/cache.ts:633-682 | after `clear` the call is evaluated anew, and other instances keep all their entries |
| CacheDecorator.ClearAllMeans | packages/cache/src/cache.ts:633-682 | after `clearAll` every call on the instance, or every one of the named methods, is evaluated anew; besides those exactly the keys that begin with the name go, and other instances keep all |
| CacheDecorator.SharedKeyShares | packages/cache/src/cache.ts:568-570 | if two different calls on one instance share a key, some run answers one with the other's value or promise |
| CacheDecorator.TransparentExactlyWhen | packages/cache/src/cache.ts:529-616 | for every class: the wrapper is transparent for all pure methods in all runs if and only if the class is empty or argument texts determine arguments, making them never throws, and no two methods have a key in common |
| CacheDecorator.UnambiguousNamesAreApart | packages/cache/src/cache.ts:529-533 | different names, none of them confusable with another, are always enough for methods to have no key in common |
| CacheDecorator.NamesApartExactlyWhenUnambiguous | packages/cache/src/cache.ts:529-533 | and needed when arguments of every kind and text occur |
| CacheDecorator.SameNameShares | packages/cache/src/cache.ts:565 | a decorated override that calls a decorated method of the same name is never transparent |
| CacheDecorator.LookalikesShare | packages/cache/src/cache.ts:466-500 | two arguments with one text make any decorated method's answers wrong in some run |
| CacheDecorator.ZerosShareAKey | packages/cache/src/cache.ts:475-477 | the concrete case of 0 and -0 |
| CacheDecorator.PromisesExactlyWhenSync | packages/cache/src/cache.ts:568-570 | decorated async methods give promises in all runs if and only if there are none: a later call is given the bare value |
| ProtoNames.MessageName | packages/grpc/src/proto-generator.ts:137-165 | every reference gives a name that proto3 accepts as an identifier (which one: NameOfWord, NameOfTwoWords, NameOfType, NameOfNothing) |
| ProtoNames.NameOfWord | packages/grpc/src/proto-generator.ts:137-165 | a word is called by itself, capitalized, or behind `_` if it starts with a digit, whatever path stands before it and whatever type arguments behind |
| ProtoNames.NameOfTwoWords | packages/grpc/src/proto-generator.ts:155-161 | words with another character between them are capitalized and joined |
| ProtoNames.NameOfType | packages/grpc/src/proto-generator.ts:137-165 | a type name, upper-case first, is its own message name, so different types have different messages |
| ProtoNames.NameOfNothing | packages/grpc/src/proto-generator.ts:155-161 | what has no letter or digit is called Empty |
| ProtoGenerator.RefInUniverse | packages/grpc/src/proto-generator.ts:283-294 | every name a walked reference can ask for belongs to a finite set fixed by the registry, which bounds the recursion |
| ProtoGenerator.RawNameOf | packages/grpc/src/proto-generator.ts:283 | both kinds of reference name what stands behind `#/definitions/` or `#/components/schemas/` |
| ProtoGenerator.ScalarsMean | packages/grpc/src/proto-generator.ts:302-315 | for each proto scalar exactly which JSON types and formats give it |
| ProtoGenerator.TypesMean | packages/grpc/src/proto-generator.ts:316-325 | an object with properties is called by its parent and its capitalized field, one without is a Struct |
| ProtoGenerator.TargetMeans | packages/grpc/src/proto-generator.ts:283-291 | a reference is looked up under its raw name, and only then under its decoded one |
| ProtoGenerator.RefsMean | packages/grpc/src/proto-generator.ts:269-300 | a local reference is called by its name if it is found under it, raw or decoded, or there is a message of that name already; otherwise it is a Struct |
| ProtoGenerator.RpcMeans | packages/grpc/src/proto-generator.ts:174-210 | both sides stream for `bidi` only and one side for its own word only; a registered schema gives its message on either side, and a trailing `?` is read on inputs only |
| ProtoGenerator.Generator.JsonSchemaToMessage | packages/grpc/src/proto-generator.ts:219-251 | terminates; the message has one field per property in order, numbered from 1, with the rule and type the property asks for, and all that its fields ask for is defined; what was in the map stays as it was, and what is new is finished |
| ProtoGenerator.MessageMeans | packages/grpc/src/proto-generator.ts:219-251 | a message that follows a schema has one field for each of its properties, in order and numbered from 1: repeated with the type of the items for an array, otherwise required or optional with the type of the property; none without properties |
| ProtoGenerator.Generator.JsonField | packages/grpc/src/proto-generator.ts:234-245 | one property becomes the field it asks for, array items walked a second time |
| ProtoGenerator.Generator.JsonTypeToProto | packages/grpc/src/proto-generator.ts:262-332 | the type returned is exactly the one the schema denotes while the map holds what it holds at the call, and is known; what it asks for is made from the very schema asked for unless the name was taken |
| ProtoGenerator.Generator.RefToProto | packages/grpc/src/proto-generator.ts:269-300 | a reference gives its message's name, made from its own target unless the name was taken; an unresolvable local one gives the name exactly when the map has it at the call, and otherwise Struct |
| ProtoGenerator.Generator.Define | packages/grpc/src/proto-generator.ts:292-295 | the placeholder set against cycles is always replaced by the definition of the reference's own target |
| ProtoGenerator.Enrich | packages/grpc/src/proto-generator.ts:66-81 | the loop computes the registry that EnrichedHolds describes |
| ProtoGenerator.EnrichedHolds | packages/grpc/src/proto-generator.ts:66-81 | registered schemas keep their value; another name is known exactly when a schema in use defines it locally, with the definition of the first use that does |
| ProtoGenerator.LocalsAreKnown | packages/grpc/src/proto-generator.ts:66-81 | whatever a registered schema in use, by its name or its `?` variant, defines locally is known to the walk |
| ProtoGenerator.Generator.DefineRoot | packages/grpc/src/proto-generator.ts:86-99 | an operation's schema gets its message, from this very schema unless the name had been reached before |
| ProtoGenerator.DefineRef | packages/grpc/src/proto-generator.ts:86-99 | an input or output adds its ask, and the rule that the first operation to ask for a name settles it is kept |
| ProtoGenerator.HiddenAskNothing | packages/grpc/src/proto-generator.ts:66-100 | hidden operations ask for no message and use no definitions |
| ProtoGenerator.VisibleAsks | packages/grpc/src/proto-generator.ts:86-99 | a visible operation asks for the registered schemas of its input and output |
| ProtoGenerator.DefineAll | packages/grpc/src/proto-generator.ts:84-100 | after the loop each message was made from a schema reached under its name and follows it field by field, all asked for is defined, and the first operation to ask for a name has settled it |
| ProtoGenerator.RpcLines | packages/grpc/src/proto-generator.ts:109-209 | exactly the visible operations have an rpc line, with their input, output and streaming |
| ProtoGenerator.VisibleJoins | packages/grpc/src/proto-generator.ts:109-125 | each operation stays or goes by itself, and those that stay keep their order |
| ProtoGenerator.GenerateProto | packages/grpc/src/proto-generator.ts:83-126 | terminates on every finite registry; the file is as for DefineAll over the enriched registry, and each rpc type is Empty or the defined message its operation asks for |
| ProtoGenerator.FollowedExactlyWhen | packages/grpc/src/proto-generator.ts:83-126 | where references resolve: for every schema reached from the visible operations the message of its name follows it, field by field, if and only if all schemas reached under one name agree in field names, rules and types, and every name reached has a message |
| ProtoGenerator.FollowedExactlyWhenAgreeing | packages/grpc/src/proto-generator.ts:234-245 | where moreover no reference is an array too, which would be walked twice to different ends, agreement alone decides it |
| ProtoGenerator.NoClashFollowsSchemas | packages/grpc/src/proto-generator.ts:83-126 | for every registry: if no two reached schemas ask for one name, every message asked for follows the schema that asked for it |
| ProtoGenerator.TypesKeepTheirNames | packages/grpc/src/proto-generator.ts:83-126 | where schemas are called like types, references are to them and fields hold no objects written in place: each input and output has the message of its own name, and every message in the file follows the schema of its name |
| ProtoGenerator.PrefixesClash | packages/grpc/src/proto-generator.ts:86-95 | inputs `p/x` and `q/x` with different fields do not agree: both rpc lines name one message, with the first one's fields and not the second one's |
| ProtoGenerator.ResolvedFileIsClosed | packages/grpc/src/proto-generator.ts:219-332 | when components references resolve, every named type is a scalar, Struct or defined in the file |
| SchemaDefinitions.Normalizer.Collect | packages/compiler/src/module.ts:109-128 | the walk removes every block it meets and collects their entries in preorder, first writer first |
| SchemaDefinitions.Normalizer.CollectMember | packages/compiler/src/module.ts:115-127 | one key: a block disappears, `$ref` is not entered, anything else is walked |
| SchemaDefinitions.Normalizer.PruneRefs | packages/compiler/src/module.ts:147-159 | the walk drops exactly the string references that do not resolve |
| SchemaDefinitions.Normalizer.NormalizeSchemaDefinitions | packages/compiler/src/module.ts:105-163 | collect, hoist and prune in turn compute the specification, scalars and arrays included |
| SchemaDefinitions.CollectedExactly | packages/compiler/src/module.ts:109-128 | collected is exactly what some block holds, at any depth, outside other blocks and the values of `$ref` |
| SchemaDefinitions.BlocksJoin | packages/compiler/src/module.ts:115-127 | the keys of an object are gone through in order |
| SchemaDefinitions.ItemBlocksJoin | packages/compiler/src/module.ts:110-113 | and so are the items of an array |
| SchemaDefinitions.StringIsSpread | packages/compiler/src/module.ts:131-133 | a string in place of the root's block spreads into one definition for each character, under its index |
| SchemaDefinitions.FirstDefinitionWins | packages/compiler/src/module.ts:116-121 | each name has the value of its first definition in preorder, except inherited names, which get none |
| SchemaDefinitions.DefinitionsAreHoisted | packages/compiler/src/module.ts:109-160 | every definition of every collected block is at the root with its first value, up to pruned references |
| SchemaDefinitions.RootDefines | packages/compiler/src/module.ts:131-133 | the names the root of the result defines, computed from the input |
| SchemaDefinitions.LocalRefsResolveExactlyWhen | packages/compiler/src/module.ts:135-160 | in the result every local reference anywhere names a root definition, raw or decoded, if and only if the input has no reference whose raw or decoded name is inherited (or is `$ref`, if a definition so called was pruned) and which nothing defines |
| SchemaDefinitions.InheritedNamesDangle | packages/compiler/src/module.ts:116-144 | inherited names are never defined at the root, and references to them, raw or escaped, always stay |
| SchemaDefinitions.LosesInheritedDefinition | packages/compiler/src/module.ts:120-144 | a schema that defines `toString` and refers to it loses the definition and keeps the reference |
| SchemaDefinitions.LosesToString | packages/compiler/src/module.ts:120-144 | the concrete case of a definition called `toString` |
| SchemaDefinitions.OnlyBlocksAndRefsChange | packages/compiler/src/module.ts:105-163 | beside the root's `definitions` everything is as before apart from collected blocks and dropped references, for every input |
| SchemaDefinitions.NoBlockRemainsExactlyWhen | packages/compiler/src/module.ts:124-127 | outside the root's `definitions` no block remains anywhere if and only if the input has none under a member named `$ref`, which collecting does not enter |
| SchemaDefinitions.NormalizeIsIdempotentExactlyWhen | packages/compiler/src/module.ts:105-163 | normalizing twice is normalizing once if and only if no definition called `$ref` is pruned as an unresolvable reference, or other definitions remain and no reference exists by the name `$ref` alone |
| SchemaDefinitions.PruneKeepsAll | packages/compiler/src/module.ts:147-159 | the last pass leaves a tree as it is if and only if all its references exist |
| SchemaDefinitions.ReferencedPropertyIsLost | packages/compiler/src/module.ts:115-160 | a class whose property `definitions` refers to `Foo` loses that property, gets an empty `definitions`, and loses that too when normalized again |
| MongoFilter.MapExpressionOf | packages/mongodb/src/mongodb.ts:266-313 | the recursion with its reassigned `query` computes the translation |
| MongoFilter.SpreadElements | packages/mongodb/src/mongodb.ts:270 | a spread merge has the later filter's clauses and those of the earlier one whose keys the later one does not use |
| MongoFilter.FilterMeansKept | packages/mongodb/src/mongodb.ts:266-313 | on documents of the right types the filter accepts exactly those of the expression with, at every AND, only the last conjunct on each key |
| MongoFilter.FilterIsExactExactlyWhen | packages/mongodb/src/mongodb.ts:266-313 | so it is right on a document if and only if the kept conjuncts imply the expression there |
| MongoFilter.FilterOverApproximates | packages/mongodb/src/mongodb.ts:266-313 | every document that satisfies the expression passes the filter, dropped conjuncts or not |
| MongoFilter.DisjointFilterIsExact | packages/mongodb/src/mongodb.ts:266-313 | with disjoint top-level keys at every AND the filter accepts exactly the expression's documents |
| MongoFilter.SecondComparisonOnly | packages/mongodb/src/mongodb.ts:269-271 | of two comparisons on one attribute only the second is asked: the filter is right on a document exactly when the second does not hold without the first |
| SqlExpression.TextIsSqlExactlyWhen | packages/postgres/src/sqlstore.ts:43-66 | for every query that can be written: its text is a condition of SQL if and only if every literal is a text, and is then read as a tree that means what the translated one means on every row |
| SqlExpression.FactorReadsBack | packages/ql/src/query.ts:577-582 | whatever follows it, what a node prints below the root is read as one factor: the parentheses keep AND and OR apart |
| SqlExpression.QueryAnswers | packages/postgres/src/sqlstore.ts:349-381 | a query with other literals than texts is refused; one with texts selects exactly what the expression accepts, on every document on which its comparisons agree |
| SqlExpression.DuplicatePreservesMeaning | packages/postgres/src/sqlstore.ts:349-375 | of the translated tree with every leaf read as it is meant: NULLs and the ORs for INs change nothing where the comparisons agree |
| SqlExpression.LeafAgreesExactly | packages/postgres/src/sqlstore.ts:56-65 | for each comparison: the database answers as the evaluator if and only if its literals are texts and the document is one on which both agree: NULL satisfies no `!=`, two texts are ordered alike, a value of another kind does not read like the literal |
| SqlExpression.OrdersMean | packages/ql/src/query.ts:483-493 | the operators on numbers and booleans are the orders they look like, for both sides |
| SqlExpression.LeafIntendedExactly | packages/postgres/src/sqlstore.ts:56-65 | the same for the casts that are meant: two numbers or booleans always agree, a missing attribute beside one compares as 0 or false |
| SqlExpression.InIsAnyEquality | packages/postgres/src/sqlstore.ts:355-360 | the OR that stands for a non-empty IN selects exactly what one of its equalities selects, on every document |
| SqlExpression.MissingAttributesDisagree | packages/postgres/src/sqlstore.ts:56-65 | on every document without the attribute `!=` holds for the evaluator; beside a text the database selects nothing, beside another literal it refuses the query |
| SqlExpression.CoalescedZeroDisagrees | packages/postgres/src/sqlstore.ts:56-65 | with the casts that are meant `= 0` and `< 5` would select such a document, which the evaluator does not accept |
| SqlExpression.EmptyInFlips | packages/postgres/src/sqlstore.ts:355-381 | IN of an empty list accepts nothing; at the root its empty text is replaced by TRUE and selects everything, and below the root it is refused |
| SqlPages.Iterate | packages/postgres/src/sqlstore.ts:404-417 | the do-while loop, stopped after any number of rounds, yields what the specification says |
| SqlPages.CarriedTokenVisitsEveryRow | packages/postgres/src/sqlstore.ts:378-417 | with a printer that carries the token: iterate ends and yields every row once and in order, for every limit and total |
| SqlPages.FixedTextRepeatsFullPage | packages/postgres/src/sqlstore.ts:404-417 | with the repository's printer a full first page is yielded again in every round and the loop does not end |
| SqlPages.IterateIsRightExactlyOnShortResults | packages/postgres/src/sqlstore.ts:378-417 | as it stands iterate is right if and only if the rows fill less than one page |
| PostgresQueue.QueueTable.SendMessage | packages/postgres/src/postgresqueue.ts:164-168 | the message is one more row behind all others, deliverable at once; no other row, lock or payload changes |
| PostgresQueue.QueueTable.SelectForUpdate | packages/postgres/src/postgresqueue.ts:200-204 | the inner SELECT takes the lowest visible ids that no other receive holds, at most the batch size |
| PostgresQueue.QueueTable.LockBatch | packages/postgres/src/postgresqueue.ts:197-199 | no receive can select a row of the batch before the end of its window, every one can after it, what can be selected of other rows is unchanged, and no message is lost or altered |
| PostgresQueue.BatchIsUnique | packages/postgres/src/postgresqueue.ts:200-204 | there is only one such batch |
| PostgresQueue.StepKeeps | packages/postgres/src/postgresqueue.ts:164-223 | every step of concurrent sends, receives and acks keeps the invariant |
| PostgresQueue.QueueIsSafe | packages/postgres/src/postgresqueue.ts:164-223 | in every run deliveries of one row are more than the visibility timeout apart, concurrent receives are disjoint, and the table holds exactly the messages sent and not acked |
| PostgresQueue.TableFollowsTheSteps | packages/postgres/src/postgresqueue.ts:164-223 | in every run the rows are exactly the messages that the steps sent and did not ack, each locked until the end of the window of its last delivery, and deliveries and receives under way are those of the steps |
| PostgresQueue.ReceivesGoOn | packages/postgres/src/postgresqueue.ts:197-215 | in every state a new receive can begin, has a batch to pick and can commit it |
| PostgresQueue.ExpiredLockIsRedelivered | packages/postgres/src/postgresqueue.ts:200-204 | an unacked row whose lock expired is in the next batch unless lower ids fill it |
| FileQueue.Queue.SendMessage | packages/fs/src/filequeue.ts:72-80 | the first free uid drawn gets the file; nothing else changes |
| FileQueue.Queue.ReceiveMessage | packages/fs/src/filequeue.ts:85-126 | for every listing order: expired locks of existing messages are removed, an oldest free message is taken and locked now, and none is taken exactly when none is free |
| FileQueue.Queue.DeleteMessage | packages/fs/src/filequeue.ts:131-139 | the message and its lock go; an unknown receipt changes nothing, not even a lock |
| FileQueue.StepKeeps | packages/fs/src/filequeue.ts:72-139 | every send, receive, ack and tick keeps the invariant |
| FileQueue.QueueIsSafe | packages/fs/src/filequeue.ts:72-139 | in every run locks belong to existing messages, the files are exactly the messages sent and not acked with their contents, and deliveries of one message are more than `expire` apart |
| FileQueue.FolderFollowsTheSteps | packages/fs/src/filequeue.ts:72-139 | in every run the message files are exactly those that the steps sent and did not ack, and a message is free exactly when the steps never received it or did so more than `expire` ago |
| FileQueue.ReceivesAreSpaced | packages/fs/src/filequeue.ts:85-126 | in every run two receives of one message are more than `expire` apart |
| FileQueue.ReceivesGoOn | packages/fs/src/filequeue.ts:85-126 | whenever a message is free a receive takes one |
| FileQueue.ExpiredIsFree | packages/fs/src/filequeue.ts:98-106 | a pending message can be taken exactly when it was never delivered or its last delivery is more than `expire` ago |
| StableStringify.EscapeRoundTrip | packages/postgres/src/pgpool.ts:14-27 | a quoted JSON string can be read back whatever follows it, lone surrogates included |
| StableStringify.TextIsSolid | packages/postgres/src/pgpool.ts:13-33 | where a value's text ends can be seen from the text alone |
| StableStringify.JoinIsInjective | packages/postgres/src/pgpool.ts:18-30 | joining such texts with commas loses nothing |
| StableStringify.OneOrder | packages/postgres/src/pgpool.ts:20 | sorting leaves one order for a set of members |
| StableStringify.TextMeans | packages/postgres/src/pgpool.ts:13-33 | two values have one text if and only if they are equal up to key order, dropped functions, non-finite numbers as null, and a list of one absent element as the empty list |
| StableStringify.KeyOrderIsForgotten | packages/postgres/src/pgpool.ts:13-33 | permuting an object's members does not change its text |
| PgPool.Registry.AcquirePool | packages/postgres/src/pgpool.ts:67-77 | an entry's pool is returned and counted once more, or a new pool is registered with count 1 |
| PgPool.Registry.ReleasePool | packages/postgres/src/pgpool.ts:88-98 | the count goes down; at zero the entry goes and its pool is ended; unknown keys change nothing |
| PgPool.StepKeeps | packages/postgres/src/pgpool.ts:67-98 | acquires and matched releases keep the registry and the holders in step |
| PgPool.PoolsAreShared | packages/postgres/src/pgpool.ts:48-77 | in every matched run two holders have one pool if and only if their configurations say the same (none, null and undefined say what `{}` says; key order, dropped functions and the other conflations of StableStringify.TextMeans aside), and no held pool was ended |
| PgPool.KeyMeans | packages/postgres/src/pgpool.ts:48-50 | two configurations have one key if and only if they say the same |
| PgPool.DifferentHostsDifferentPools | packages/postgres/src/pgpool.ts:48-77 | holders of two configurations that differ in the text of their one setting have different pools |
| PgPool.HoldersFollowTheSteps | packages/postgres/src/pgpool.ts:67-98 | in every matched run the holders are exactly the acquires that the steps have not released, each with its configuration |
| PgPool.RunsGoOn | packages/postgres/src/pgpool.ts:67-98 | every run can go on with any acquire, and with the release of any holder |
| PgPool.CountIsHolders | packages/postgres/src/pgpool.ts:67-98 | a configuration has an entry exactly while someone holds an equivalent one, and its count is their number |
| PgPool.EndedWhenLastLeaves | packages/postgres/src/pgpool.ts:88-98 | a pool has been ended if and only if none of its holders is left |
| PgPool.UnmatchedReleaseEndsAHeldPool | packages/postgres/src/pgpool.ts:88-98 | one release too many ends a pool that is still held |
| CompileCache.Compiler.RequireCompilation | packages/compiler/src/compiler.ts:60-98 | the early returns decide exactly whether one of the three guards fails |
| CompileCache.Compiler.Compile | packages/compiler/src/compiler.ts:105-225 | not forced and not compiled before, it leaves everything alone and succeeds if and only if the recorded sources, the recorded file and the stamp all match; otherwise diagnostics stop it, or it writes the module with the current stamp (unless generation fails) and records sources and file |
| CompileCache.Compiler.UpdateCache | packages/compiler/src/compiler.ts:233-242 | afterwards the first two guards pass (the second if there is a file), so only the stamp decides |
| CompileCache.GuardedSkip | packages/compiler/src/compiler.ts:60-98 | after any run of edits, replaced files and caches, restarts, failures and compiles: a skip by the guards is right if and only if the file on disk (or, if a compile wrote the cache, the file it recorded) was generated from sources that make the module of its stamped sources, or was put there with an honest stamp |
| CompileCache.FlaggedSkip | packages/compiler/src/compiler.ts:105-109 | a skip because this compiler has compiled before is right if and only if the file on disk was generated from sources that make the module of the current ones, or was put there as that module |
| CompileCache.StartSkipsExactlyWhen | packages/compiler/src/compiler.ts:105-109 | a compile is skipped if and only if it is not forced and this compiler has compiled before or all three guards pass; a skip changes nothing |
| CompileCache.SkippedIsRight | packages/compiler/src/compiler.ts:60-109 | where files are only restored and sources rest while a program is loaded: a new compiler skips only when the module on disk is right |
| CompileCache.CompiledIsRight | packages/compiler/src/compiler.ts:105-242 | an undisturbed compile that is not skipped leaves the right module, with all guards passing |
| CompileCache.CompiledSinceRestart | packages/compiler/src/compiler.ts:105-225 | the flag that skips without looking is set exactly when a compile has finished since the last start |
| CompileCache.TamperedFileIsRecorded | packages/compiler/src/compiler.ts:217-242 | a module edited under its old stamp and a swallowed generator failure: the guards then let an outdated module stay |
| CompileCache.FlagSkipsAnEdit | packages/compiler/src/compiler.ts:105-109 | compile, edit, compile in one process: the second is skipped with the old module |
| CompileCache.SkipIsSound | packages/compiler/src/compiler.ts:60-98 | where files are only ever restored and sources rest while a program is loaded, a skip by the guards is always right, through deletions, restarts, failed generations and any change to the cache |
| CompileCache.EditsDuringACompile | packages/compiler/src/module.ts:1305-1306 | with edits between load, stamp and record: the next compile is skipped exactly when the sources are unchanged since the stamp, and then wrong exactly when the loaded sources give another module |
| CompileCache.OnlyTheStampCatchesAFailedGeneration | packages/compiler/src/module.ts:1371-1378 | after a swallowed failure the first two guards pass on an outdated module and only the third refuses |
| BuildHooks.Runner.RunHooks | packages/compiler/src/shell.ts:220-225 | a request starts a run, or is remembered if one is under way |
| BuildHooks.Runner.OnDone | packages/compiler/src/shell.ts:240-244 | after a change a run is under way: a new one, or the one there was with another remembered |
| BuildHooks.Runner.OnEnd | packages/compiler/src/shell.ts:228-237 | the end of a run, failed or not, starts another exactly when a request waits |
| BuildHooks.NoChangeIsLost | packages/compiler/src/shell.ts:203-244 | in every interleaving at most one run is active, a request waits only behind one, runs never outnumber changes, and an idle runner has started a run after every change |
| BuildHooks.RunsFollowTheSteps | packages/compiler/src/shell.ts:203-244 | in every interleaving each change is seen, and the runs started are those that ended and the one under way |
| BuildHooks.RunnerComesToRest | packages/compiler/src/shell.ts:228-237 | when changes stop, at most two run ends lead to rest with every change covered |
| BuildHooks.BurstsAreCoalesced | packages/compiler/src/shell.ts:220-237 | any number of changes during a run is answered by one further run |
| BodyCapture.LooksLikeText | packages/debug/src/bodycapture.ts:49-80 | the two loops decide the verdict on the inspected window, for every sample limit |
| BodyCapture.AcceptsTheGrammar | packages/debug/src/bodycapture.ts:49-80 | accepted are exactly the windows made of whole units, possibly ending in a cut one |
| BodyCapture.SmallerSampleAccepts | packages/debug/src/bodycapture.ts:49-80 | inspecting less never turns text into binary |
| BodyCapture.WindowOfUtf8 | packages/debug/src/bodycapture.ts:49-80 | on UTF-8 the first n bytes are accepted if and only if every code point that begins there is text |
| BodyCapture.TextIsAccepted | packages/debug/src/bodycapture.ts:49-80 | UTF-8 text is accepted for every sample limit |
| BodyCapture.InspectedUtf8 | packages/debug/src/bodycapture.ts:49-80 | fully inspected UTF-8 is accepted if and only if all its code points are text |
| BodyCapture.SyntaxIsEncoding | packages/debug/src/bodycapture.ts:61-68 | every sequence of the syntax in section 4 of RFC 3629 is the encoding of the code point its bits spell |
| BodyCapture.UnitIsUtf8ExactlyWhen | packages/debug/src/bodycapture.ts:61-76 | an accepted unit is UTF-8 unless it is overlong, a surrogate or too large, which its second byte decides |
| BodyCapture.CaptureBody | packages/debug/src/bodycapture.ts:113-138 | empty exactly for no bytes, binary exactly when the declared type or the sniffed verdict says so, with the size and a prefix of at most the preview's length; otherwise whole within the limit and a prefix of that length beyond it |
| BodyCapture.OnlyTheFirstKilobyteCounts | packages/debug/src/bodycapture.ts:113-125 | of an undeclared body the first 1024 bytes alone decide: a NUL there makes it binary, and nothing behind them does |
| BodyCapture.TextIsKept | packages/debug/src/bodycapture.ts:113-138 | undeclared UTF-8 text is never recorded as binary; it is kept whole within the limit and as a prefix beyond it |

## Left out

- SocketNetwork.StepKeeps: one broker and a fixed set of connected clients; the race of several brokers for one socket path, reconnection, closing sockets, callbacks that throw and frames that are not JSON are not modelled.
- SocketFrames.ReaderRoundTrip: payloads are shorter than 2^32 bytes, as a length field can say; `writeUInt32BE` throws beyond.
- GrpcStream.DeliversExactlyWhenHeadersRespected: chunks are not empty, as Node's streams guarantee; deserialization and handlers that throw are left out.
- CacheKeys.KeysCollideExactlyWhenConfusable: the texts behind the tags S, J, O and T are arbitrary strings, so a pair of names that needs a text no JSON value can have also counts as confusable; CacheDecorator.TransparentExactlyWhen is exact for the arguments a class really has.
- CacheDecorator.CacheIsTransparent: the `simple` key strategy only; `argumentsHash` joins its arguments without separators before hashing. Async answers are compared after `await` (PromisesExactlyWhenSync says what that hides). A method that gives a promise on some calls only, a `shouldCache` that throws, arguments altered during a call, a `toJSON` property that throws when it is read, and key generators given by the user are left out.
- CacheDecorator.CacheMap.SetCachedMethod: the stores are values in a map, so two maps sharing one store object is not captured; negative `ttl` and `maxSize` are left out.
- ProtoGenerator.GenerateProto: the text layout, service grouping, summaries and rpc name flattening are left out; `decodeURIComponent` is a parameter, lookups of inherited names in the registries are not modelled, upper-casing is that of ASCII.
- ProtoGenerator.Generator.JsonTypeToProto: nested names are not checked to be identifiers.
- ProtoGenerator.FollowedExactlyWhen: for registries in which every reference resolves, since an unresolvable one may come out as Struct in one message and as a name in another; NoClashFollowsSchemas covers all registries in one direction.
- SchemaDefinitions.Normalizer.Collect: the tree is rewritten as a value instead of in place on the heap, so shared and cyclic objects are not captured, nor the reordering of integer-like keys; `definitions` added to an array root, and what `Object.prototype` holds beyond its standard names, are left out.
- SchemaDefinitions.NormalizeIsIdempotentExactlyWhen: for object roots without a `definitions` of their own that is a scalar; DefinitionsAreHoisted leaves out a definition called `$ref`, which RootDefines and this one decide.
- SchemaDefinitions.DefinitionsAreHoisted: blocks nested inside a definition are not entered by the code and are part of its value here too.
- MongoFilter.DisjointFilterIsExact: how an attribute compares with a literal is one relation that the evaluator and MongoDB share; JavaScript's loose equality, LIKE as a regular expression, and equality on arrays are outside it.
- SqlExpression.LeafAgreesExactly: whether the collation (or LIKE) orders two texts as the evaluator does is a condition on the two texts; how the database writes or casts a value of another kind than the literal, and how the evaluator compares such values (loose equality included), are parameters. LIKE on a missing attribute, on which the evaluator throws, and CONTAINS on a text that is no JSON, on which the cast fails, are left out.
- SqlExpression.TextIsSqlExactlyWhen: of the text of SQL, conditions as the printer can write them; quotes inside literals and names of attributes are left out.
- SqlPages.Iterate: the table does not change and the query's limit is given (1000 when its text has none).
- PostgresQueue.QueueIsSafe: each statement's steps are atomic as PostgreSQL runs them under READ COMMITTED; RETURNING order, connection failures and JSON are left out.
- FileQueue.Queue.ReceiveMessage: a receive is one step; two processes racing on one folder, the 10-second wait, and the repeated scaling of `expire` are left out. Which of several messages of equal age is taken is left open.
- StableStringify.TextMeans: BigInt values, on which the code throws, and objects with getters or prototypes of their own are left out.
- PgPool.PoolsAreShared: a configuration does not change between acquire and release; `end()` is the moment it is called.
- CompileCache.GuardedSkip: digests are injective and cover the sources only; a cache that does not parse, on which the guard throws, a file that fails to be written half-way and watch mode are left out.
- BodyCapture.CaptureBody: `toString("utf8")` and hexadecimal are left out, so records hold bytes; the Content-Type is read elsewhere.
- Everything that depends on the TypeScript checker, on WebdaQL parsing, on real sockets, databases and timers, and the services that wrap libraries.
