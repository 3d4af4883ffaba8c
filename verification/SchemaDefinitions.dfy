/** packages/compiler/src/module.ts: normalizeSchemaDefinitions. */
module SchemaDefinitions {
  import opened Common

  /** A JSON document; `members` are an object's own keys in enumeration order. */
  datatype Json =
    | Null
    | Bool(b: bool)
    | Num(text: string)
    | Str(s: string)
    | Arr(items: seq<Json>)
    | Obj(members: seq<Member>)

  datatype Member = Member(key: string, value: Json)

  const LOCAL := "#/definitions/"

  /** The names `in` finds on every object through Object.prototype. */
  const INHERITED: set<string> := {
    "constructor", "__defineGetter__", "__defineSetter__", "hasOwnProperty", "__lookupGetter__",
    "__lookupSetter__", "isPrototypeOf", "propertyIsEnumerable", "toString", "valueOf", "__proto__",
    "toLocaleString"
  }

  function Find(ms: seq<Member>, key: string): (r: Option<Json>)
    ensures r.Some? <==> key in Names(ms)
  {
    if ms == [] then None else if ms[0].key == key then Some(ms[0].value) else Find(ms[1..], key)
  }

  function Names(ms: seq<Member>): (r: set<string>)
    ensures forall i :: 0 <= i < |ms| ==> ms[i].key in r
    ensures forall k :: k in r ==> exists i :: 0 <= i < |ms| && ms[i].key == k
  {
    set i | 0 <= i < |ms| :: ms[i].key
  }

  /** `key in object`. */
  predicate In(key: string, ms: seq<Member>) {
    key in INHERITED || key in Names(ms)
  }

  /** A member whose value has `typeof` "object". */
  predicate IsBlock(m: Member) {
    m.key == "definitions" && (m.value.Obj? || m.value.Arr?)
  }

  /** `Object.entries` of a block: of an array, its elements under their indices. */
  function Entries(v: Json): (r: seq<Member>) {
    match v
    case Obj(ms) => ms
    case Arr(items) => seq(|items|, i requires 0 <= i < |items| => Member(Decimal(i), items[i]))
    case _ => []
  }

  // ---- collect ----

  /** First writer wins, and a name `in` finds by inheritance is never written. */
  function Add(defs: seq<Member>, m: Member): (r: seq<Member>) {
    if In(m.key, defs) then defs else defs + [m]
  }

  function AddAll(defs: seq<Member>, ms: seq<Member>): (r: seq<Member>)
    decreases |ms|
  {
    if ms == [] then defs else AddAll(Add(defs, ms[0]), ms[1..])
  }

  /** The tree without its `definitions` blocks. Values of `$ref` are not entered. */
  function Strip(n: Json): (r: Json)
    decreases n, 1
  {
    match n
    case Arr(items) => Arr(StripItems(items))
    case Obj(ms) => Obj(StripMembers(ms))
    case _ => n
  }

  function StripItems(items: seq<Json>): (r: seq<Json>)
    decreases items, 0
  {
    if items == [] then [] else [Strip(items[0])] + StripItems(items[1..])
  }

  function StripMembers(ms: seq<Member>): (r: seq<Member>)
    decreases ms, 0
  {
    if ms == [] then [] else
      var rest := StripMembers(ms[1..]);
      if IsBlock(ms[0]) then rest
      else if ms[0].key == "$ref" then [ms[0]] + rest
      else [Member(ms[0].key, Strip(ms[0].value))] + rest
  }

  /** The definitions of all blocks, in preorder. A block itself is not entered. */
  function Blocks(n: Json): (r: seq<Member>)
    decreases n, 1
  {
    match n
    case Arr(items) => BlocksOfItems(items)
    case Obj(ms) => OwnBlocks(ms) + InnerBlocks(ms)
    case _ => []
  }

  function BlocksOfItems(items: seq<Json>): (r: seq<Member>)
    decreases items, 0
  {
    if items == [] then [] else Blocks(items[0]) + BlocksOfItems(items[1..])
  }

  function OwnBlocks(ms: seq<Member>): (r: seq<Member>)
  {
    if ms == [] then [] else
      if IsBlock(ms[0]) then Entries(ms[0].value) + OwnBlocks(ms[1..]) else OwnBlocks(ms[1..])
  }

  function InnerBlocks(ms: seq<Member>): (r: seq<Member>)
    decreases ms, 0
  {
    if ms == [] then [] else
      var rest := InnerBlocks(ms[1..]);
      if IsBlock(ms[0]) || ms[0].key == "$ref" then rest else Blocks(ms[0].value) + rest
  }

  // ---- hoist ----

  function SetMember(ms: seq<Member>, key: string, value: Json): (r: seq<Member>)
  {
    if ms == [] then [Member(key, value)]
    else if ms[0].key == key then [Member(key, value)] + ms[1..]
    else [ms[0]] + SetMember(ms[1..], key, value)
  }

  /** `{ ...(value || {}), ...defs }` for the value that may be left at the root: a string spreads into
      its characters, any other scalar into nothing. */
  function Spread(v: Option<Json>): (r: seq<Member>) {
    match v
    case Some(Str(s)) => seq(|s|, i requires 0 <= i < |s| => Member(Decimal(i), Str([s[i]])))
    case _ => []
  }

  function Merge(a: seq<Member>, b: seq<Member>): (r: seq<Member>)
    decreases |b|
  {
    if b == [] then a else Merge(SetMember(a, b[0].key, b[0].value), b[1..])
  }

  function Hoist(stripped: Json, defs: seq<Member>): (r: Json) {
    if stripped.Obj? && defs != [] then
      var ms := stripped.members;
      Obj(SetMember(ms, "definitions", Obj(Merge(Spread(Find(ms, "definitions")), defs))))
    else stripped
  }

  // ---- prune ----

  function RefExists(decode: string -> string, defs: seq<Member>, ref: string): (r: bool) {
    LOCAL <= ref ==> In(ref[|LOCAL|..], defs) || In(decode(ref[|LOCAL|..]), defs)
  }

  predicate Dropped(decode: string -> string, defs: seq<Member>, m: Member) {
    m.key == "$ref" && m.value.Str? && !RefExists(decode, defs, m.value.s)
  }

  function Prune(decode: string -> string, defs: seq<Member>, n: Json): (r: Json)
    decreases n, 1
  {
    match n
    case Arr(items) => Arr(PruneItems(decode, defs, items))
    case Obj(ms) => Obj(PruneMembers(decode, defs, ms))
    case _ => n
  }

  function PruneItems(decode: string -> string, defs: seq<Member>, items: seq<Json>): (r: seq<Json>)
    decreases items, 0
  {
    if items == [] then [] else [Prune(decode, defs, items[0])] + PruneItems(decode, defs, items[1..])
  }

  function PruneMembers(decode: string -> string, defs: seq<Member>, ms: seq<Member>): (r: seq<Member>)
    decreases ms, 0
  {
    if ms == [] then [] else
      var rest := PruneMembers(decode, defs, ms[1..]);
      if Dropped(decode, defs, ms[0]) then rest
      else [Member(ms[0].key, Prune(decode, defs, ms[0].value))] + rest
  }

  /** `normalizeSchemaDefinitions`. */
  function Normalize(decode: string -> string, schema: Json): (r: Json) {
    if !schema.Obj? && !schema.Arr? then schema else
      var defs := AddAll([], Blocks(schema));
      Prune(decode, defs, Hoist(Strip(schema), defs))
  }

  /** The function with its captured `allDefs`; each node is rewritten as it is visited. */
  class Normalizer {
    const decode: string -> string
    var allDefs: seq<Member>

    constructor (decode: string -> string)
      ensures this.decode == decode && allDefs == []
    {
      this.decode, allDefs := decode, [];
    }

    method AddEntries(entries: seq<Member>)
      modifies this
      ensures allDefs == AddAll(old(allDefs), entries)
    {
      for i := 0 to |entries|
        invariant AddAll(allDefs, entries[i..]) == AddAll(old(allDefs), entries)
      {
        assert entries[i..][1..] == entries[i + 1..];
        if !In(entries[i].key, allDefs) {
          allDefs := allDefs + [entries[i]];
        }
      }
    }

    method Collect(node: Json) returns (node': Json)
      modifies this
      ensures node' == Strip(node) && allDefs == AddAll(old(allDefs), Blocks(node))
      decreases node, 1
    {
      match node {
        case Arr(items) =>
          var out := CollectItems(items);
          node' := Arr(out);
        case Obj(ms) =>
          AddAllAppend(allDefs, OwnBlocks(ms), InnerBlocks(ms));
          AddEntries(OwnBlocks(ms));
          var out := CollectMembers(ms);
          node' := Obj(out);
        case _ =>
          node' := node;
      }
    }

    method CollectItems(items: seq<Json>) returns (out: seq<Json>)
      modifies this
      ensures out == StripItems(items) && allDefs == AddAll(old(allDefs), BlocksOfItems(items))
      decreases items, 0
    {
      ghost var goal := AddAll(allDefs, BlocksOfItems(items));
      out := [];
      for i := 0 to |items|
        invariant out + StripItems(items[i..]) == StripItems(items)
        invariant AddAll(allDefs, BlocksOfItems(items[i..])) == goal
      {
        assert items[i..][1..] == items[i + 1..];
        AddAllAppend(allDefs, Blocks(items[i]), BlocksOfItems(items[i + 1..]));
        var item := Collect(items[i]);
        out := out + [item];
      }
    }

    /** The loop over an object's keys once its own block is gone. */
    method CollectMembers(ms: seq<Member>) returns (out: seq<Member>)
      modifies this
      ensures out == StripMembers(ms) && allDefs == AddAll(old(allDefs), InnerBlocks(ms))
      decreases ms, 0
    {
      ghost var goal := AddAll(allDefs, InnerBlocks(ms));
      out := [];
      for i := 0 to |ms|
        invariant out + StripMembers(ms[i..]) == StripMembers(ms)
        invariant AddAll(allDefs, InnerBlocks(ms[i..])) == goal
      {
        ghost var rest := ms[i + 1..];
        assert ms[i..] == [ms[i]] + rest;
        var kept := CollectMember(ms[i], rest);
        Assoc(out, kept, StripMembers(rest));
        out := out + kept;
      }
    }

    /** One key; `rest` are the keys after it. */
    method CollectMember(m: Member, ghost rest: seq<Member>) returns (kept: seq<Member>)
      modifies this
      ensures kept + StripMembers(rest) == StripMembers([m] + rest)
      ensures AddAll(allDefs, InnerBlocks(rest)) == AddAll(old(allDefs), InnerBlocks([m] + rest))
      decreases m, 0
    {
      assert ([m] + rest)[1..] == rest;
      if IsBlock(m) { return []; }
      if m.key == "$ref" { return [m]; }
      AddAllAppend(allDefs, Blocks(m.value), InnerBlocks(rest));
      var value := Collect(m.value);
      return [Member(m.key, value)];
    }

    method PruneRefs(node: Json) returns (node': Json)
      ensures node' == Prune(decode, allDefs, node)
      decreases node, 1
    {
      match node {
        case Arr(items) =>
          var out := PruneRefsOfItems(items);
          node' := Arr(out);
        case Obj(ms) =>
          var out := PruneRefsOfMembers(ms);
          node' := Obj(out);
        case _ =>
          node' := node;
      }
    }

    method PruneRefsOfItems(items: seq<Json>) returns (out: seq<Json>)
      ensures out == PruneItems(decode, allDefs, items)
      decreases items, 0
    {
      out := [];
      for i := 0 to |items|
        invariant out + PruneItems(decode, allDefs, items[i..]) == PruneItems(decode, allDefs, items)
      {
        assert items[i..][1..] == items[i + 1..];
        var item := PruneRefs(items[i]);
        out := out + [item];
      }
    }

    method PruneRefsOfMembers(ms: seq<Member>) returns (out: seq<Member>)
      ensures out == PruneMembers(decode, allDefs, ms)
      decreases ms, 0
    {
      out := [];
      for i := 0 to |ms|
        invariant out + PruneMembers(decode, allDefs, ms[i..]) == PruneMembers(decode, allDefs, ms)
      {
        assert ms[i..][1..] == ms[i + 1..];
        if ms[i].key == "$ref" && ms[i].value.Str? && !RefExists(decode, allDefs, ms[i].value.s) { continue; }
        var value := PruneRefs(ms[i].value);
        out := out + [Member(ms[i].key, value)];
      }
    }

    method NormalizeSchemaDefinitions(schema: Json) returns (result: Json)
      requires allDefs == []
      modifies this
      ensures result == Normalize(decode, schema)
    {
      if !schema.Obj? && !schema.Arr? { return schema; }
      var stripped := Collect(schema);
      if stripped.Obj? && allDefs != [] {
        var ms := stripped.members;
        stripped := Obj(SetMember(ms, "definitions", Obj(Merge(Spread(Find(ms, "definitions")), allDefs))));
      }
      result := PruneRefs(stripped);
    }
  }

  lemma {:induction false} AddAllAppend(defs: seq<Member>, a: seq<Member>, b: seq<Member>)
    ensures AddAll(defs, a + b) == AddAll(AddAll(defs, a), b)
    decreases |a|
  {
    if a == [] {
      assert a + b == b;
    } else {
      assert (a + b)[0] == a[0] && (a + b)[1..] == a[1..] + b;
      AddAllAppend(Add(defs, a[0]), a[1..], b);
    }
  }

  // ---- which definitions are collected ----

  /** Some block that collecting comes by holds the definition: in the object itself, or in anything inside it that is
      neither a block nor the value of a `$ref`. */
  ghost predicate Holds(n: Json, m: Member)
    decreases n, 1
  {
    match n
    case Arr(items) => exists i :: 0 <= i < |items| && Holds(items[i], m)
    case Obj(ms) => exists i :: 0 <= i < |ms| && HeldBy(ms[i], m)
    case _ => false
  }

  ghost predicate HeldBy(x: Member, m: Member)
    decreases x, 0
  {
    if IsBlock(x) then m in Entries(x.value) else x.key != "$ref" && Holds(x.value, m)
  }

  /** Collected is exactly what such a block holds, however deep. */
  lemma {:induction false} CollectedExactly(n: Json, m: Member)
    ensures m in Blocks(n) <==> Holds(n, m)
    decreases n, 1
  {
    match n {
      case Arr(items) => CollectedFromItems(items, m);
      case Obj(ms) => CollectedFromMembers(ms, m);
      case _ =>
    }
  }

  lemma {:induction false} CollectedFromItems(items: seq<Json>, m: Member)
    ensures m in BlocksOfItems(items) <==> exists i :: 0 <= i < |items| && Holds(items[i], m)
    decreases items, 0
  {
    if items != [] {
      CollectedExactly(items[0], m);
      CollectedFromItems(items[1..], m);
      assert items == [items[0]] + items[1..];
      if i :| 0 <= i < |items[1..]| && Holds(items[1..][i], m) { assert Holds(items[i + 1], m); }
    }
  }

  lemma {:induction false} CollectedFromMembers(ms: seq<Member>, m: Member)
    ensures m in OwnBlocks(ms) + InnerBlocks(ms) <==> exists i :: 0 <= i < |ms| && HeldBy(ms[i], m)
    decreases ms, 0
  {
    if ms != [] {
      if !IsBlock(ms[0]) && ms[0].key != "$ref" { CollectedExactly(ms[0].value, m); }
      CollectedFromMembers(ms[1..], m);
      assert ms == [ms[0]] + ms[1..];
      if i :| 0 <= i < |ms[1..]| && HeldBy(ms[1..][i], m) { assert HeldBy(ms[i + 1], m); }
    }
  }

  /** They come in the order of the document: an object's own block first, then what is inside its values. */
  lemma {:induction false} BlocksJoin(a: seq<Member>, b: seq<Member>)
    ensures OwnBlocks(a + b) == OwnBlocks(a) + OwnBlocks(b) && InnerBlocks(a + b) == InnerBlocks(a) + InnerBlocks(b)
  {
    if a == [] {
      assert a + b == b;
    } else {
      assert (a + b)[0] == a[0] && (a + b)[1..] == a[1..] + b;
      BlocksJoin(a[1..], b);
    }
  }

  lemma {:induction false} ItemBlocksJoin(a: seq<Json>, b: seq<Json>)
    ensures Blocks(Arr(a + b)) == Blocks(Arr(a)) + Blocks(Arr(b))
    decreases |a|
  {
    if a == [] {
      assert a + b == b;
    } else {
      assert (a + b)[0] == a[0] && (a + b)[1..] == a[1..] + b;
      ItemBlocksJoin(a[1..], b);
    }
  }

  // ---- the collected definitions ----

  ghost predicate Distinct(ms: seq<Member>) {
    forall i, j :: 0 <= i < j < |ms| ==> ms[i].key != ms[j].key
  }

  lemma {:induction false} FindAppend(a: seq<Member>, b: seq<Member>, key: string)
    ensures Find(a + b, key) == if key in Names(a) then Find(a, key) else Find(b, key)
  {
    if a == [] {
      assert a + b == b;
    } else {
      assert (a + b)[0] == a[0] && (a + b)[1..] == a[1..] + b;
      FindAppend(a[1..], b, key);
    }
  }

  lemma AddKeepsDistinct(defs: seq<Member>, m: Member)
    requires Distinct(defs)
    ensures Distinct(Add(defs, m))
  {
  }

  lemma AddFinds(defs: seq<Member>, m: Member, key: string)
    ensures Find(Add(defs, m), key) ==
      if key in Names(defs) || key != m.key || key in INHERITED then Find(defs, key) else Some(m.value)
  {
    FindAppend(defs, [m], key);
    assert [m][0] == m && [m][1..] == [];
  }

  /** Each name gets the value of its first definition in preorder, except the names `in` finds by
      inheritance, which get none. */
  lemma {:induction false} FirstDefinitionWins(defs: seq<Member>, ms: seq<Member>, key: string)
    requires Distinct(defs)
    ensures Distinct(AddAll(defs, ms))
    ensures Find(AddAll(defs, ms), key) ==
      if key in Names(defs) then Find(defs, key) else if key in INHERITED then None else Find(ms, key)
    decreases |ms|
  {
    if ms != [] {
      AddKeepsDistinct(defs, ms[0]);
      AddFinds(defs, ms[0], key);
      FirstDefinitionWins(Add(defs, ms[0]), ms[1..], key);
    }
  }

  lemma {:induction false} FindSet(ms: seq<Member>, key: string, value: Json, k: string)
    ensures Find(SetMember(ms, key, value), k) == if k == key then Some(value) else Find(ms, k)
  {
    if ms != [] {
      FindSet(ms[1..], key, value, k);
      var rest := SetMember(ms[1..], key, value);
      assert ([ms[0]] + rest)[1..] == rest && ([Member(key, value)] + ms[1..])[1..] == ms[1..];
    } else {
      assert [Member(key, value)][1..] == [];
    }
  }

  lemma {:induction false} FindMerge(a: seq<Member>, b: seq<Member>, k: string)
    requires Distinct(b)
    ensures Find(Merge(a, b), k) == if k in Names(b) then Find(b, k) else Find(a, k)
    decreases |b|
  {
    if b != [] {
      FindMerge(SetMember(a, b[0].key, b[0].value), b[1..], k);
      FindSet(a, b[0].key, b[0].value, k);
      assert Names(b) == {b[0].key} + Names(b[1..]);
      assert b[0].key !in Names(b[1..]);
    }
  }

  function PruneFound(decode: string -> string, defs: seq<Member>, v: Option<Json>): (r: Option<Json>) {
    if v.Some? then Some(Prune(decode, defs, v.value)) else None
  }

  lemma {:induction false} FindPruned(decode: string -> string, defs: seq<Member>, ms: seq<Member>, k: string)
    requires k != "$ref"
    ensures Find(PruneMembers(decode, defs, ms), k) == PruneFound(decode, defs, Find(ms, k))
  {
    if ms != [] {
      FindPruned(decode, defs, ms[1..], k);
      var rest := PruneMembers(decode, defs, ms[1..]);
      var first := Member(ms[0].key, Prune(decode, defs, ms[0].value));
      assert ([first] + rest)[1..] == rest;
    }
  }

  /** The names a root's `definitions` object defines. */
  function RootNames(n: Json): (r: set<string>) {
    if n.Obj? && Find(n.members, "definitions").Some? && Find(n.members, "definitions").value.Obj?
    then Names(Find(n.members, "definitions").value.members)
    else {}
  }

  /** The root block after hoisting and pruning. */
  lemma RootBlock(decode: string -> string, schema: Json)
    requires schema.Obj?
    ensures var defs, left := AddAll([], Blocks(schema)), Find(Strip(schema).members, "definitions");
            Find(Normalize(decode, schema).members, "definitions") == PruneFound(decode, defs,
              if defs == [] then left else Some(Obj(Merge(Spread(left), defs))))
  {
    var defs, ms := AddAll([], Blocks(schema)), Strip(schema).members;
    var merged := Obj(Merge(Spread(Find(ms, "definitions")), defs));
    FindSet(ms, "definitions", merged, "definitions");
    FindPruned(decode, defs, Hoist(Strip(schema), defs).members, "definitions");
  }

  lemma RootDefinition(decode: string -> string, schema: Json, key: string)
    requires schema.Obj? && key in Names(AddAll([], Blocks(schema))) && key != "$ref"
    ensures var defs := AddAll([], Blocks(schema));
            var block := Find(Normalize(decode, schema).members, "definitions");
            && block.Some? && block.value.Obj?
            && Find(block.value.members, key) == PruneFound(decode, defs, Find(defs, key))
  {
    var defs, left := AddAll([], Blocks(schema)), Find(Strip(schema).members, "definitions");
    FirstDefinitionWins([], Blocks(schema), key);
    RootBlock(decode, schema);
    FindPruned(decode, defs, Merge(Spread(left), defs), key);
    FindMerge(Spread(left), defs, key);
  }

  /** Every definition of every block ends up at the root with its first value in preorder, its own
      unresolvable references dropped. */
  lemma DefinitionsAreHoisted(decode: string -> string, schema: Json, key: string)
    requires schema.Obj? && key in Names(Blocks(schema)) && key !in INHERITED && key != "$ref"
    ensures var defs := AddAll([], Blocks(schema));
            var block := Find(Normalize(decode, schema).members, "definitions");
            block.Some? && block.value.Obj?
            && Find(block.value.members, key) == Some(Prune(decode, defs, Find(Blocks(schema), key).value))
  {
    FirstDefinitionWins([], Blocks(schema), key);
    RootDefinition(decode, schema, key);
  }

  // ---- the references that remain ----

  function Resolves(decode: string -> string, names: set<string>, ref: string): (r: bool) {
    LOCAL <= ref ==> ref[|LOCAL|..] in names || decode(ref[|LOCAL|..]) in names
  }

  /** Every string `$ref` anywhere in a tree. */
  function Refs(n: Json): (refs: set<string>)
    decreases n, 1
  {
    match n
    case Arr(items) => RefsOfItems(items)
    case Obj(ms) => RefsOfMembers(ms)
    case _ => {}
  }

  function RefsOfItems(items: seq<Json>): (refs: set<string>)
    decreases items, 0
  {
    if items == [] then {} else Refs(items[0]) + RefsOfItems(items[1..])
  }

  function RefsOfMembers(ms: seq<Member>): (refs: set<string>)
    decreases ms, 0
  {
    if ms == [] then {}
    else if ms[0].key == "$ref" && ms[0].value.Str? then {ms[0].value.s} + RefsOfMembers(ms[1..])
    else Refs(ms[0].value) + RefsOfMembers(ms[1..])
  }

  function Existing(decode: string -> string, defs: seq<Member>, refs: set<string>): (kept: set<string>) {
    set r | r in refs && RefExists(decode, defs, r)
  }

  lemma {:induction false} PrunedRefs(decode: string -> string, defs: seq<Member>, n: Json)
    ensures Refs(Prune(decode, defs, n)) == Existing(decode, defs, Refs(n))
    decreases n, 1
  {
    match n {
      case Arr(items) => PrunedRefsOfItems(decode, defs, items);
      case Obj(ms) => PrunedRefsOfMembers(decode, defs, ms);
      case _ =>
    }
  }

  lemma {:induction false} PrunedRefsOfItems(decode: string -> string, defs: seq<Member>, items: seq<Json>)
    ensures RefsOfItems(PruneItems(decode, defs, items)) == Existing(decode, defs, RefsOfItems(items))
    decreases items, 0
  {
    if items != [] {
      PrunedRefs(decode, defs, items[0]);
      PrunedRefsOfItems(decode, defs, items[1..]);
      var rest := PruneItems(decode, defs, items[1..]);
      assert ([Prune(decode, defs, items[0])] + rest)[1..] == rest;
    }
  }

  lemma {:induction false} PrunedRefsOfMembers(decode: string -> string, defs: seq<Member>, ms: seq<Member>)
    ensures RefsOfMembers(PruneMembers(decode, defs, ms)) == Existing(decode, defs, RefsOfMembers(ms))
    decreases ms, 0
  {
    if ms != [] {
      PrunedRefs(decode, defs, ms[0].value);
      PrunedRefsOfMembers(decode, defs, ms[1..]);
      var rest := PruneMembers(decode, defs, ms[1..]);
      assert ([Member(ms[0].key, Prune(decode, defs, ms[0].value))] + rest)[1..] == rest;
    }
  }

  /** The tree between collecting and pruning: what was outside all blocks, and the first definitions. */
  function Collected(schema: Json): (n: Json) {
    Hoist(Strip(schema), AddAll([], Blocks(schema)))
  }

  /** A definition that is itself called `$ref` and is an unresolvable string is pruned as if it were a reference. */
  predicate LosesRefDefinition(decode: string -> string, schema: Json) {
    var defs := AddAll([], Blocks(schema));
    Find(defs, "$ref").Some? && Dropped(decode, defs, Member("$ref", Find(defs, "$ref").value))
  }

  /** The names that the root of the result will define: those of the collected definitions, and the indices of a
      string that stands in place of the root's block. */
  function Defined(decode: string -> string, schema: Json): (names: set<string>)
    requires schema.Obj?
  {
    var defs, left := AddAll([], Blocks(schema)), Find(StripMembers(schema.members), "definitions");
    if defs == [] then {} else
      var names := Names(defs) + Names(Spread(left));
      if LosesRefDefinition(decode, schema) then names - {"$ref"} else names
  }

  /** The names that pruning takes for defined without looking at the collected definitions. */
  function Phantoms(decode: string -> string, schema: Json): (names: set<string>) {
    if LosesRefDefinition(decode, schema) then INHERITED + {"$ref"} else INHERITED
  }

  /** A local reference whose raw or decoded name is such a phantom, and which nothing defines. */
  predicate Dangles(decode: string -> string, schema: Json, ref: string)
    requires schema.Obj?
  {
    LOCAL <= ref &&
    var raw := ref[|LOCAL|..];
    && (raw in Phantoms(decode, schema) || decode(raw) in Phantoms(decode, schema))
    && raw !in Defined(decode, schema) && decode(raw) !in Defined(decode, schema)
  }

  predicate RefsOnce(ms: seq<Member>) {
    forall i, j :: 0 <= i < j < |ms| && ms[i].key == "$ref" ==> ms[j].key != "$ref"
  }

  lemma {:induction false} SetKeepsRefsOnce(ms: seq<Member>, key: string, value: Json)
    requires RefsOnce(ms)
    ensures RefsOnce(SetMember(ms, key, value))
  {
    if ms != [] && ms[0].key != key {
      var tail := SetMember(ms[1..], key, value);
      SetKeepsRefsOnce(ms[1..], key, value);
      forall j | 0 <= j < |tail| && ms[0].key == "$ref" ensures tail[j].key != "$ref" {
        FindSet(ms[1..], key, value, "$ref");
        assert tail[j].key in Names(tail);
      }
    }
  }

  lemma {:induction false} MergeKeepsRefsOnce(a: seq<Member>, b: seq<Member>)
    requires RefsOnce(a)
    ensures RefsOnce(Merge(a, b))
    decreases |b|
  {
    if b != [] {
      SetKeepsRefsOnce(a, b[0].key, b[0].value);
      MergeKeepsRefsOnce(SetMember(a, b[0].key, b[0].value), b[1..]);
    }
  }

  predicate KeepsRef(decode: string -> string, defs: seq<Member>, found: Option<Json>) {
    found.Some? && !Dropped(decode, defs, Member("$ref", found.value))
  }

  lemma {:induction false} RefAfterPruning(decode: string -> string, defs: seq<Member>, ms: seq<Member>)
    requires RefsOnce(ms)
    ensures "$ref" in Names(PruneMembers(decode, defs, ms)) <==> KeepsRef(decode, defs, Find(ms, "$ref"))
  {
    if ms != [] {
      RefAfterPruning(decode, defs, ms[1..]);
      var rest := PruneMembers(decode, defs, ms[1..]);
      var first := Member(ms[0].key, Prune(decode, defs, ms[0].value));
      assert ([first] + rest)[1..] == rest;
      assert Names([first] + rest) == {first.key} + Names(rest) by {
        NamesCons(first, rest);
      }
    }
  }

  lemma NamesCons(m: Member, ms: seq<Member>)
    ensures Names([m] + ms) == {m.key} + Names(ms)
  {
    var all := [m] + ms;
    assert all[0] == m && all[1..] == ms;
    forall k ensures k in Names(all) <==> k == m.key || k in Names(ms) {
      if k in Names(ms) { var i :| 0 <= i < |ms| && ms[i].key == k; assert all[i + 1].key == k; }
    }
  }

  lemma SpreadNames(left: Option<Json>)
    ensures "$ref" !in Names(Spread(left)) && RefsOnce(Spread(left))
    ensures Names(Spread(left)) !! INHERITED
  {
    var ms := Spread(left);
    forall k | k in Names(ms) ensures k != "" && k[0] in DIGITS {
      SpreadName(left, k);
    }
    assert '$' !in DIGITS && "$ref"[0] == '$';
    forall k | k in INHERITED ensures k !in Names(ms) {
      InheritedIsNoIndex(k);
    }
  }

  /** A string that stands in place of the root's block gives a definition for each of its characters. */
  lemma StringIsSpread(s: string, i: nat)
    requires i < |s|
    ensures |Spread(Some(Str(s)))| == |s| && Spread(Some(Str(s)))[i] == Member(Decimal(i), Str([s[i]]))
  {
  }

  lemma SpreadName(left: Option<Json>, k: string)
    requires k in Names(Spread(left))
    ensures k != "" && k[0] in DIGITS
  {
    var ms := Spread(left);
    var i :| 0 <= i < |ms| && ms[i].key == k;
    assert ms[i].key == Decimal(i);
  }

  lemma InheritedIsNoIndex(k: string)
    requires k in INHERITED
    ensures k != "" && k[0] !in DIGITS
  {
  }

  /** The root of the result defines exactly the names computed from the input. */
  lemma RootDefines(decode: string -> string, schema: Json)
    requires schema.Obj?
    ensures RootNames(Normalize(decode, schema)) == Defined(decode, schema)
  {
    var defs, left := AddAll([], Blocks(schema)), Find(StripMembers(schema.members), "definitions");
    RootBlock(decode, schema);
    NoBlockLeft(schema.members);
    if defs != [] {
      forall k
        ensures k in Names(PruneMembers(decode, defs, Merge(Spread(left), defs))) <==> k in Defined(decode, schema)
      {
        RootName(decode, schema, k);
      }
    }
  }

  lemma RootName(decode: string -> string, schema: Json, k: string)
    requires schema.Obj?
    ensures var defs, left := AddAll([], Blocks(schema)), Find(StripMembers(schema.members), "definitions");
            defs != [] ==>
              (k in Names(PruneMembers(decode, defs, Merge(Spread(left), defs))) <==> k in Defined(decode, schema))
  {
    var defs, left := AddAll([], Blocks(schema)), Find(StripMembers(schema.members), "definitions");
    FirstDefinitionWins([], Blocks(schema), "$ref");
    SpreadNames(left);
    MergedName(decode, Spread(left), defs, k);
  }

  lemma MergedName(decode: string -> string, a: seq<Member>, defs: seq<Member>, k: string)
    requires Distinct(defs) && RefsOnce(a) && "$ref" !in Names(a)
    ensures k in Names(PruneMembers(decode, defs, Merge(a, defs)))
       <==> if k == "$ref" then KeepsRef(decode, defs, Find(defs, "$ref")) else k in Names(defs) + Names(a)
  {
    var merged := Merge(a, defs);
    FindMerge(a, defs, k);
    if k == "$ref" {
      MergeKeepsRefsOnce(a, defs);
      RefAfterPruning(decode, defs, merged);
    } else {
      FindPruned(decode, defs, merged, k);
    }
  }

  lemma {:induction false} NoBlockLeft(ms: seq<Member>)
    ensures var left := Find(StripMembers(ms), "definitions"); left.Some? ==> !left.value.Obj? && !left.value.Arr?
  {
    if ms != [] {
      NoBlockLeft(ms[1..]);
      var rest := StripMembers(ms[1..]);
      var first := if ms[0].key == "$ref" then ms[0] else Member(ms[0].key, Strip(ms[0].value));
      assert ([first] + rest)[1..] == rest;
    }
  }

  lemma KeptResolves(decode: string -> string, schema: Json, ref: string)
    requires schema.Obj?
    ensures var defs := AddAll([], Blocks(schema));
            RefExists(decode, defs, ref) ==>
              (Resolves(decode, Defined(decode, schema), ref) <==> !Dangles(decode, schema, ref))
    ensures Dangles(decode, schema, ref) ==> RefExists(decode, AddAll([], Blocks(schema)), ref)
  {
  }

  /** In the result every local reference, anywhere in the tree, names a root definition, raw or decoded, exactly when
      no reference outside the input's blocks or in a collected definition dangles. */
  lemma LocalRefsResolveExactlyWhen(decode: string -> string, schema: Json)
    requires schema.Obj?
    ensures var result := Normalize(decode, schema);
            (forall r :: r in Refs(result) ==> Resolves(decode, RootNames(result), r))
              <==> (forall r :: r in Refs(Collected(schema)) ==> !Dangles(decode, schema, r))
  {
    var defs, result := AddAll([], Blocks(schema)), Normalize(decode, schema);
    PrunedRefs(decode, defs, Collected(schema));
    RootDefines(decode, schema);
    forall r ensures r in Refs(result) && !Resolves(decode, RootNames(result), r)
                <==> r in Refs(Collected(schema)) && Dangles(decode, schema, r)
    {
      KeptResolves(decode, schema, r);
    }
  }

  /** The names `in` inherits are never defined at the root, though references to them, raw or escaped, always stay. */
  lemma InheritedNamesDangle(decode: string -> string, schema: Json, raw: string)
    requires schema.Obj? && (raw in INHERITED || decode(raw) in INHERITED)
    ensures RefExists(decode, AddAll([], Blocks(schema)), LOCAL + raw)
    ensures RootNames(Normalize(decode, schema)) !! INHERITED
    ensures raw !in Defined(decode, schema) && decode(raw) !in Defined(decode, schema) ==>
              Dangles(decode, schema, LOCAL + raw)
  {
    var defs := AddAll([], Blocks(schema));
    assert (LOCAL + raw)[|LOCAL|..] == raw;
    RootDefines(decode, schema);
    AddAllNotInherited([], Blocks(schema));
    SpreadNames(Find(StripMembers(schema.members), "definitions"));
  }

  // ---- the functions on a list of one, for the examples ----

  lemma Alone(m: Member)
    ensures [m][0] == m && [m][1..] == [] && Names([m]) == {m.key}
  {
  }

  lemma StripOne(m: Member)
    ensures StripMembers([m]) ==
      if IsBlock(m) then [] else if m.key == "$ref" then [m] else [Member(m.key, Strip(m.value))]
  {
    Alone(m);
    assert StripMembers([m][1..]) == [];
  }

  lemma BlocksOfOne(m: Member)
    ensures OwnBlocks([m]) == if IsBlock(m) then Entries(m.value) else []
    ensures InnerBlocks([m]) == if IsBlock(m) || m.key == "$ref" then [] else Blocks(m.value)
  {
    Alone(m);
    assert OwnBlocks([m][1..]) == [] && InnerBlocks([m][1..]) == [];
  }

  lemma AddOne(m: Member)
    ensures AddAll([], [m]) == if m.key in INHERITED then [] else [m]
  {
    Alone(m);
    assert AddAll(Add([], m), [m][1..]) == Add([], m) && [] + [m] == [m];
  }

  lemma PruneOne(decode: string -> string, defs: seq<Member>, m: Member)
    ensures PruneMembers(decode, defs, [m]) ==
      if Dropped(decode, defs, m) then [] else [Member(m.key, Prune(decode, defs, m.value))]
  {
    Alone(m);
    assert PruneMembers(decode, defs, [m][1..]) == [];
  }

  /** So a definition with such a name is lost and the reference to it kept. */
  lemma LosesInheritedDefinition(decode: string -> string, key: string, value: Json)
    requires key in INHERITED
    ensures var ref := Member("$ref", Str(LOCAL + key));
            var schema := Obj([Member("definitions", Obj([Member(key, value)])), ref]);
            Normalize(decode, schema) == Obj([ref])
  {
    var ref, def := Member("$ref", Str(LOCAL + key)), Member(key, value);
    assert (LOCAL + key)[|LOCAL|..] == key;
    BlockAndRef(Member("definitions", Obj([def])), ref);
    AddOne(def);
    PruneOne(decode, [], ref);
  }

  /** Such as the name of a method that every object has. */
  lemma LosesToString(decode: string -> string, value: Json)
    ensures var ref := Member("$ref", Str("#/definitions/" + "toString"));
            var schema := Obj([Member("definitions", Obj([Member("toString", value)])), ref]);
            Normalize(decode, schema) == Obj([ref])
  {
    LosesInheritedDefinition(decode, "toString", value);
  }

  lemma BlockAndRef(block: Member, ref: Member)
    requires IsBlock(block) && ref.key == "$ref"
    ensures Strip(Obj([block, ref])) == Obj([ref]) && Blocks(Obj([block, ref])) == Entries(block.value)
  {
    var ms := [block, ref];
    assert ms[0] == block && ms[1..] == [ref];
    StripOne(ref);
    BlocksOfOne(ref);
    assert OwnBlocks(ms) == Entries(block.value) + [] && InnerBlocks(ms) == [];
  }

  // ---- what else changes ----

  /** No `definitions` block anywhere that collecting looks. */
  predicate NoBlocks(n: Json)
    decreases n, 1
  {
    match n
    case Arr(items) => NoBlocksItems(items)
    case Obj(ms) => NoBlocksMembers(ms)
    case _ => true
  }

  predicate NoBlocksItems(items: seq<Json>)
    decreases items, 0
  {
    items == [] || (NoBlocks(items[0]) && NoBlocksItems(items[1..]))
  }

  predicate NoBlocksMembers(ms: seq<Member>)
    decreases ms, 0
  {
    ms == [] || (!IsBlock(ms[0]) && (ms[0].key == "$ref" || NoBlocks(ms[0].value)) && NoBlocksMembers(ms[1..]))
  }

  lemma {:induction false} StripLeavesNoBlocks(n: Json)
    ensures NoBlocks(Strip(n))
    decreases n, 1
  {
    match n {
      case Arr(items) => StripLeavesNoBlocksItems(items);
      case Obj(ms) => StripLeavesNoBlocksMembers(ms);
      case _ =>
    }
  }

  lemma {:induction false} StripLeavesNoBlocksItems(items: seq<Json>)
    ensures NoBlocksItems(StripItems(items))
    decreases items, 0
  {
    if items != [] {
      StripLeavesNoBlocks(items[0]);
      StripLeavesNoBlocksItems(items[1..]);
      var rest := StripItems(items[1..]);
      assert ([Strip(items[0])] + rest)[1..] == rest;
    }
  }

  lemma {:induction false} StripLeavesNoBlocksMembers(ms: seq<Member>)
    ensures NoBlocksMembers(StripMembers(ms))
    decreases ms, 0
  {
    if ms != [] {
      StripLeavesNoBlocks(ms[0].value);
      StripLeavesNoBlocksMembers(ms[1..]);
      var rest := StripMembers(ms[1..]);
      var first := if ms[0].key == "$ref" then ms[0] else Member(ms[0].key, Strip(ms[0].value));
      assert ([first] + rest)[1..] == rest;
    }
  }

  /** A tree without blocks is not touched by collecting, and yields nothing. */
  lemma {:induction false} NothingToStrip(n: Json)
    requires NoBlocks(n)
    ensures Strip(n) == n && Blocks(n) == []
    decreases n, 1
  {
    match n {
      case Arr(items) => NothingToStripItems(items);
      case Obj(ms) => NothingToStripMembers(ms);
      case _ =>
    }
  }

  lemma {:induction false} NothingToStripItems(items: seq<Json>)
    requires NoBlocksItems(items)
    ensures StripItems(items) == items && BlocksOfItems(items) == []
    decreases items, 0
  {
    if items != [] {
      NothingToStrip(items[0]);
      NothingToStripItems(items[1..]);
    }
  }

  lemma {:induction false} NothingToStripMembers(ms: seq<Member>)
    requires NoBlocksMembers(ms)
    ensures StripMembers(ms) == ms && OwnBlocks(ms) == [] && InnerBlocks(ms) == []
    decreases ms, 0
  {
    if ms != [] {
      if ms[0].key != "$ref" { NothingToStrip(ms[0].value); }
      NothingToStripMembers(ms[1..]);
    }
  }

  lemma {:induction false} PruneKeepsNoBlocks(decode: string -> string, defs: seq<Member>, n: Json)
    requires NoBlocks(n)
    ensures NoBlocks(Prune(decode, defs, n))
    decreases n, 1
  {
    match n {
      case Arr(items) => PruneKeepsNoBlocksItems(decode, defs, items);
      case Obj(ms) => PruneKeepsNoBlocksMembers(decode, defs, ms);
      case _ =>
    }
  }

  lemma {:induction false} PruneKeepsNoBlocksItems(decode: string -> string, defs: seq<Member>, items: seq<Json>)
    requires NoBlocksItems(items)
    ensures NoBlocksItems(PruneItems(decode, defs, items))
    decreases items, 0
  {
    if items != [] {
      PruneKeepsNoBlocks(decode, defs, items[0]);
      PruneKeepsNoBlocksItems(decode, defs, items[1..]);
      var rest := PruneItems(decode, defs, items[1..]);
      assert ([Prune(decode, defs, items[0])] + rest)[1..] == rest;
    }
  }

  lemma {:induction false} PruneKeepsNoBlocksMembers(decode: string -> string, defs: seq<Member>, ms: seq<Member>)
    requires NoBlocksMembers(ms)
    ensures NoBlocksMembers(PruneMembers(decode, defs, ms))
    decreases ms, 0
  {
    if ms != [] {
      if ms[0].key != "$ref" { PruneKeepsNoBlocks(decode, defs, ms[0].value); }
      PruneKeepsNoBlocksMembers(decode, defs, ms[1..]);
      var rest := PruneMembers(decode, defs, ms[1..]);
      assert ([Member(ms[0].key, Prune(decode, defs, ms[0].value))] + rest)[1..] == rest;
    }
  }

  /** The tree without any string `$ref`. */
  function DropRefs(n: Json): (r: Json)
    decreases n, 1
  {
    match n
    case Arr(items) => Arr(DropRefsItems(items))
    case Obj(ms) => Obj(DropRefsMembers(ms))
    case _ => n
  }

  function DropRefsItems(items: seq<Json>): (r: seq<Json>)
    decreases items, 0
  {
    if items == [] then [] else [DropRefs(items[0])] + DropRefsItems(items[1..])
  }

  function DropRefsMembers(ms: seq<Member>): (r: seq<Member>)
    decreases ms, 0
  {
    if ms == [] then []
    else if ms[0].key == "$ref" && ms[0].value.Str? then DropRefsMembers(ms[1..])
    else [Member(ms[0].key, DropRefs(ms[0].value))] + DropRefsMembers(ms[1..])
  }

  /** Pruning changes nothing but string `$ref`s. */
  lemma {:induction false} PruneDropsRefsOnly(decode: string -> string, defs: seq<Member>, n: Json)
    ensures DropRefs(Prune(decode, defs, n)) == DropRefs(n)
    decreases n, 1
  {
    match n {
      case Arr(items) => PruneDropsRefsOnlyItems(decode, defs, items);
      case Obj(ms) => PruneDropsRefsOnlyMembers(decode, defs, ms);
      case _ =>
    }
  }

  lemma {:induction false} PruneDropsRefsOnlyItems(decode: string -> string, defs: seq<Member>, items: seq<Json>)
    ensures DropRefsItems(PruneItems(decode, defs, items)) == DropRefsItems(items)
    decreases items, 0
  {
    if items != [] {
      PruneDropsRefsOnly(decode, defs, items[0]);
      PruneDropsRefsOnlyItems(decode, defs, items[1..]);
      var rest := PruneItems(decode, defs, items[1..]);
      assert ([Prune(decode, defs, items[0])] + rest)[1..] == rest;
    }
  }

  lemma {:induction false} PruneDropsRefsOnlyMembers(decode: string -> string, defs: seq<Member>, ms: seq<Member>)
    ensures DropRefsMembers(PruneMembers(decode, defs, ms)) == DropRefsMembers(ms)
    decreases ms, 0
  {
    if ms != [] {
      PruneDropsRefsOnly(decode, defs, ms[0].value);
      PruneDropsRefsOnlyMembers(decode, defs, ms[1..]);
      var rest := PruneMembers(decode, defs, ms[1..]);
      assert ([Member(ms[0].key, Prune(decode, defs, ms[0].value))] + rest)[1..] == rest;
    }
  }

  ghost predicate AllExist(decode: string -> string, defs: seq<Member>, refs: set<string>) {
    forall r :: r in refs ==> RefExists(decode, defs, r)
  }

  /** Pruning leaves a tree as it is exactly when all its references exist. */
  lemma {:induction false} PruneKeepsAll(decode: string -> string, defs: seq<Member>, n: Json)
    ensures Prune(decode, defs, n) == n <==> AllExist(decode, defs, Refs(n))
    decreases n, 1
  {
    PrunedRefs(decode, defs, n);
    match n {
      case Arr(items) => if AllExist(decode, defs, Refs(n)) { PruneKeepsAllItems(decode, defs, items); }
      case Obj(ms) => if AllExist(decode, defs, Refs(n)) { PruneKeepsAllMembers(decode, defs, ms); }
      case _ =>
    }
  }

  lemma {:induction false} PruneKeepsAllItems(decode: string -> string, defs: seq<Member>, items: seq<Json>)
    requires AllExist(decode, defs, RefsOfItems(items))
    ensures PruneItems(decode, defs, items) == items
    decreases items, 0
  {
    if items != [] {
      PruneKeepsAll(decode, defs, items[0]);
      PruneKeepsAllItems(decode, defs, items[1..]);
    }
  }

  lemma {:induction false} PruneKeepsAllMembers(decode: string -> string, defs: seq<Member>, ms: seq<Member>)
    requires AllExist(decode, defs, RefsOfMembers(ms))
    ensures PruneMembers(decode, defs, ms) == ms
    decreases ms, 0
  {
    if ms != [] {
      PruneKeepsAll(decode, defs, ms[0].value);
      PruneKeepsAllMembers(decode, defs, ms[1..]);
    }
  }

  lemma {:induction false} SetAppends(ms: seq<Member>, key: string, value: Json)
    requires key !in Names(ms)
    ensures SetMember(ms, key, value) == ms + [Member(key, value)]
  {
    if ms != [] {
      assert ms[0].key in Names(ms);
      assert forall k :: k in Names(ms[1..]) ==> k in Names(ms);
      SetAppends(ms[1..], key, value);
    }
  }

  lemma NotAmong(a: seq<Member>, b: seq<Member>)
    requires b != [] && Distinct(a + b)
    ensures b[0].key !in Names(a) && Distinct(a + [b[0]])
  {
    var all := a + b;
    assert forall i :: 0 <= i < |a| ==> all[i].key != all[|a|].key;
    forall i | 0 <= i < |a| ensures a[i].key != b[0].key {
      assert all[i] == a[i] && all[|a|] == b[0];
    }
    forall i, j | 0 <= i < j < |a| ensures a[i].key != a[j].key {
      assert all[i] == a[i] && all[j] == a[j];
    }
  }

  lemma {:induction false} MergeAppends(a: seq<Member>, b: seq<Member>)
    requires Distinct(a + b)
    ensures Merge(a, b) == a + b
    decreases |b|
  {
    if b != [] {
      NotAmong(a, b);
      SetAppends(a, b[0].key, b[0].value);
      assert a + [b[0]] + b[1..] == a + b;
      MergeAppends(a + [b[0]], b[1..]);
    } else {
      assert a + b == a;
    }
  }

  /** Without `definitions` left at the root, hoisting appends the block. */
  lemma HoistAppends(ms: seq<Member>, defs: seq<Member>)
    requires "definitions" !in Names(ms) && defs != [] && Distinct(defs)
    ensures Hoist(Obj(ms), defs) == Obj(ms + [Member("definitions", Obj(defs))])
  {
    assert [] + defs == defs && Find(ms, "definitions").None?;
    MergeAppends([], defs);
    SetAppends(ms, "definitions", Obj(defs));
  }

  lemma {:induction false} AddAllKeeps(defs: seq<Member>, ms: seq<Member>)
    requires Distinct(defs + ms) && Names(ms) !! INHERITED
    ensures AddAll(defs, ms) == defs + ms
    decreases |ms|
  {
    if ms != [] {
      NotAmong(defs, ms);
      assert defs + [ms[0]] + ms[1..] == defs + ms;
      AddAllKeeps(defs + [ms[0]], ms[1..]);
    } else {
      assert defs + ms == defs;
    }
  }

  lemma {:induction false} AddAllNotInherited(defs: seq<Member>, ms: seq<Member>)
    requires Distinct(defs) && forall i :: 0 <= i < |defs| ==> defs[i].key !in INHERITED
    ensures Distinct(AddAll(defs, ms))
    ensures forall i :: 0 <= i < |AddAll(defs, ms)| ==> AddAll(defs, ms)[i].key !in INHERITED
    decreases |ms|
  {
    if ms != [] { AddAllNotInherited(Add(defs, ms[0]), ms[1..]); }
  }

  /** A block put after all other members. */
  lemma {:induction false} BlockLast(ms: seq<Member>, block: seq<Member>)
    requires NoBlocksMembers(ms)
    ensures var all := ms + [Member("definitions", Obj(block))];
            StripMembers(all) == ms && OwnBlocks(all) == block && InnerBlocks(all) == []
  {
    var last := [Member("definitions", Obj(block))];
    var all := ms + last;
    if ms == [] {
      assert all == last && last[1..] == [];
      assert OwnBlocks(last) == block + OwnBlocks([]);
    } else {
      assert all[0] == ms[0] && all[1..] == ms[1..] + last;
      BlockLast(ms[1..], block);
      if ms[0].key != "$ref" { NothingToStrip(ms[0].value); }
    }
  }

  lemma {:induction false} PruneLast(decode: string -> string, defs: seq<Member>, ms: seq<Member>, block: seq<Member>)
    ensures PruneMembers(decode, defs, ms + [Member("definitions", Obj(block))])
         == PruneMembers(decode, defs, ms) + [Member("definitions", Obj(PruneMembers(decode, defs, block)))]
  {
    var last := [Member("definitions", Obj(block))];
    if ms == [] {
      assert ms + last == last && last[1..] == [];
    } else {
      assert (ms + last)[0] == ms[0] && (ms + last)[1..] == ms[1..] + last;
      PruneLast(decode, defs, ms[1..], block);
    }
  }

  /** A root object whose own `definitions`, if any, is a block. */
  predicate Regular(schema: Json) {
    schema.Obj? && "definitions" !in Names(StripMembers(schema.members))
  }

  lemma {:induction false} PruneKeepsDistinct(decode: string -> string, defs: seq<Member>, ms: seq<Member>)
    requires Distinct(ms)
    ensures var r := PruneMembers(decode, defs, ms); Distinct(r) && Names(r) <= Names(ms)
  {
    if ms != [] {
      PruneKeepsDistinct(decode, defs, ms[1..]);
      var rest := PruneMembers(decode, defs, ms[1..]);
      var first := Member(ms[0].key, Prune(decode, defs, ms[0].value));
      assert ms == [ms[0]] + ms[1..];
      NamesCons(ms[0], ms[1..]);
      assert ms[0].key !in Names(ms[1..]);
      DistinctCons(first, rest);
    }
  }

  lemma DistinctCons(m: Member, ms: seq<Member>)
    requires Distinct(ms) && m.key !in Names(ms)
    ensures Distinct([m] + ms) && Names([m] + ms) == {m.key} + Names(ms)
  {
    NamesCons(m, ms);
  }

  /** The shape of the result: the root's members without blocks, pruned, then one block with all
      definitions, pruned. */
  lemma Shape(decode: string -> string, schema: Json) returns (defs: seq<Member>, body: seq<Member>, block: seq<Member>)
    requires Regular(schema)
    ensures defs == AddAll([], Blocks(schema))
    ensures body == PruneMembers(decode, defs, StripMembers(schema.members)) && NoBlocksMembers(body)
    ensures "definitions" !in Names(body)
    ensures Normalize(decode, schema) == Obj(if defs == [] then body else body + [Member("definitions", Obj(block))])
    ensures Distinct(block) && Names(block) == Defined(decode, schema) && Names(block) !! INHERITED
  {
    defs := AddAll([], Blocks(schema));
    AddAllNotInherited([], Blocks(schema));
    PruneKeepsDistinct(decode, defs, defs);
    var ms := StripMembers(schema.members);
    StripLeavesNoBlocksMembers(schema.members);
    PruneKeepsNoBlocksMembers(decode, defs, ms);
    FindPruned(decode, defs, ms, "definitions");
    body, block := PruneMembers(decode, defs, ms), PruneMembers(decode, defs, defs);
    BlockDefines(decode, schema);
    if defs != [] {
      HoistAppends(ms, defs);
      PruneLast(decode, defs, ms, defs);
    }
  }

  lemma BlockDefines(decode: string -> string, schema: Json)
    requires Regular(schema)
    ensures var defs := AddAll([], Blocks(schema));
            Names(PruneMembers(decode, defs, defs)) == Defined(decode, schema)
  {
    var defs := AddAll([], Blocks(schema));
    var names := if LosesRefDefinition(decode, schema) then Names(defs) - {"$ref"} else Names(defs);
    FirstDefinitionWins([], Blocks(schema), "$ref");
    forall k ensures k in Names(PruneMembers(decode, defs, defs)) <==> k in names {
      NamePruned(decode, defs, k);
    }
    assert Spread(Find(StripMembers(schema.members), "definitions")) == [];
    assert Names(defs) + Names([]) == Names(defs);
  }

  lemma NamePruned(decode: string -> string, defs: seq<Member>, k: string)
    requires Distinct(defs)
    ensures k in Names(PruneMembers(decode, defs, defs))
       <==> if k == "$ref" then KeepsRef(decode, defs, Find(defs, k)) else k in Names(defs)
  {
    assert [] + defs == defs;
    MergeAppends([], defs);
    MergedName(decode, [], defs, k);
  }

  // ---- no block anywhere ----

  /** No `definitions` block anywhere in the tree. */
  predicate BlockFree(n: Json)
    decreases n, 1
  {
    match n
    case Arr(items) => BlockFreeItems(items)
    case Obj(ms) => BlockFreeMembers(ms)
    case _ => true
  }

  predicate BlockFreeItems(items: seq<Json>)
    decreases items, 0
  {
    items == [] || (BlockFree(items[0]) && BlockFreeItems(items[1..]))
  }

  predicate BlockFreeMembers(ms: seq<Member>)
    decreases ms, 0
  {
    ms == [] || (!IsBlock(ms[0]) && BlockFree(ms[0].value) && BlockFreeMembers(ms[1..]))
  }

  /** Outside its blocks, the tree has none under a member named `$ref`. */
  predicate NoneUnderRefs(n: Json)
    decreases n, 1
  {
    match n
    case Arr(items) => NoneUnderRefsItems(items)
    case Obj(ms) => NoneUnderRefsMembers(ms)
    case _ => true
  }

  predicate NoneUnderRefsItems(items: seq<Json>)
    decreases items, 0
  {
    items == [] || (NoneUnderRefs(items[0]) && NoneUnderRefsItems(items[1..]))
  }

  predicate NoneUnderRefsMembers(ms: seq<Member>)
    decreases ms, 0
  {
    ms == [] ||
    (&& (IsBlock(ms[0]) || (if ms[0].key == "$ref" then BlockFree(ms[0].value) else NoneUnderRefs(ms[0].value)))
     && NoneUnderRefsMembers(ms[1..]))
  }

  lemma {:induction false} StripFrees(n: Json)
    ensures BlockFree(Strip(n)) <==> NoneUnderRefs(n)
    decreases n, 1
  {
    match n {
      case Arr(items) => StripFreesItems(items);
      case Obj(ms) => StripFreesMembers(ms);
      case _ =>
    }
  }

  lemma {:induction false} StripFreesItems(items: seq<Json>)
    ensures BlockFreeItems(StripItems(items)) <==> NoneUnderRefsItems(items)
    decreases items, 0
  {
    if items != [] {
      StripFrees(items[0]);
      StripFreesItems(items[1..]);
      var rest := StripItems(items[1..]);
      assert ([Strip(items[0])] + rest)[1..] == rest;
    }
  }

  lemma {:induction false} StripFreesMembers(ms: seq<Member>)
    ensures BlockFreeMembers(StripMembers(ms)) <==> NoneUnderRefsMembers(ms)
    decreases ms, 0
  {
    if ms != [] {
      StripFrees(ms[0].value);
      StripFreesMembers(ms[1..]);
      var rest := StripMembers(ms[1..]);
      var first := if ms[0].key == "$ref" then ms[0] else Member(ms[0].key, Strip(ms[0].value));
      assert ([first] + rest)[1..] == rest;
    }
  }

  lemma {:induction false} PruneFrees(decode: string -> string, defs: seq<Member>, n: Json)
    ensures BlockFree(Prune(decode, defs, n)) <==> BlockFree(n)
    decreases n, 1
  {
    match n {
      case Arr(items) => PruneFreesItems(decode, defs, items);
      case Obj(ms) => PruneFreesMembers(decode, defs, ms);
      case _ =>
    }
  }

  lemma {:induction false} PruneFreesItems(decode: string -> string, defs: seq<Member>, items: seq<Json>)
    ensures BlockFreeItems(PruneItems(decode, defs, items)) <==> BlockFreeItems(items)
    decreases items, 0
  {
    if items != [] {
      PruneFrees(decode, defs, items[0]);
      PruneFreesItems(decode, defs, items[1..]);
      var rest := PruneItems(decode, defs, items[1..]);
      assert ([Prune(decode, defs, items[0])] + rest)[1..] == rest;
    }
  }

  lemma {:induction false} PruneFreesMembers(decode: string -> string, defs: seq<Member>, ms: seq<Member>)
    ensures BlockFreeMembers(PruneMembers(decode, defs, ms)) <==> BlockFreeMembers(ms)
    decreases ms, 0
  {
    if ms != [] {
      PruneFrees(decode, defs, ms[0].value);
      PruneFreesMembers(decode, defs, ms[1..]);
      var rest := PruneMembers(decode, defs, ms[1..]);
      assert ([Member(ms[0].key, Prune(decode, defs, ms[0].value))] + rest)[1..] == rest;
    }
  }

  /** The members beside `definitions`, and a tree without the root's. */
  function Others(ms: seq<Member>): (r: seq<Member>) {
    if ms == [] then []
    else if ms[0].key == "definitions" then Others(ms[1..])
    else [ms[0]] + Others(ms[1..])
  }

  function BesideDefinitions(n: Json): (r: Json) {
    if n.Obj? then Obj(Others(n.members)) else n
  }

  lemma {:induction false} OthersAfterSet(ms: seq<Member>, value: Json)
    ensures Others(SetMember(ms, "definitions", value)) == Others(ms)
  {
    if ms == [] {
      assert [Member("definitions", value)][1..] == [];
    } else {
      OthersAfterSet(ms[1..], value);
      var rest := SetMember(ms[1..], "definitions", value);
      assert ([Member("definitions", value)] + ms[1..])[1..] == ms[1..];
      assert ([ms[0]] + rest)[1..] == rest;
    }
  }

  lemma {:induction false} OthersAfterPrune(decode: string -> string, defs: seq<Member>, ms: seq<Member>)
    ensures Others(PruneMembers(decode, defs, ms)) == PruneMembers(decode, defs, Others(ms))
  {
    if ms != [] {
      OthersAfterPrune(decode, defs, ms[1..]);
      var rest := PruneMembers(decode, defs, ms[1..]);
      var first := Member(ms[0].key, Prune(decode, defs, ms[0].value));
      assert ([first] + rest)[1..] == rest;
      assert ([ms[0]] + Others(ms[1..]))[1..] == Others(ms[1..]);
    }
  }

  lemma {:induction false} OthersOfStripped(ms: seq<Member>)
    ensures BlockFreeMembers(Others(StripMembers(ms))) <==> BlockFreeMembers(StripMembers(ms))
  {
    if ms != [] {
      OthersOfStripped(ms[1..]);
      var rest := StripMembers(ms[1..]);
      var first := if ms[0].key == "$ref" then ms[0] else Member(ms[0].key, Strip(ms[0].value));
      assert ([first] + rest)[1..] == rest;
      assert ([first] + Others(rest))[1..] == Others(rest);
    }
  }

  lemma BesideIsPruned(decode: string -> string, schema: Json)
    ensures BesideDefinitions(Normalize(decode, schema))
         == Prune(decode, AddAll([], Blocks(schema)), BesideDefinitions(Strip(schema)))
  {
    var defs := AddAll([], Blocks(schema));
    if schema.Obj? {
      var ms := StripMembers(schema.members);
      OthersAfterPrune(decode, defs, Hoist(Strip(schema), defs).members);
      OthersAfterSet(ms, Obj(Merge(Spread(Find(ms, "definitions")), defs)));
    }
  }

  /** Outside the root's `definitions` no block remains anywhere, exactly when the input has none under a member named
      `$ref`, which collecting does not enter. */
  lemma NoBlockRemainsExactlyWhen(decode: string -> string, schema: Json)
    ensures BlockFree(BesideDefinitions(Normalize(decode, schema))) <==> NoneUnderRefs(schema)
  {
    BesideIsPruned(decode, schema);
    PruneFrees(decode, AddAll([], Blocks(schema)), BesideDefinitions(Strip(schema)));
    StripFrees(schema);
    if schema.Obj? { OthersOfStripped(schema.members); }
  }

  /** Apart from collected blocks and dropped references everything beside the root's `definitions` is as before. */
  lemma OnlyBlocksAndRefsChange(decode: string -> string, schema: Json)
    ensures DropRefs(BesideDefinitions(Normalize(decode, schema))) == DropRefs(BesideDefinitions(Strip(schema)))
  {
    BesideIsPruned(decode, schema);
    PruneDropsRefsOnly(decode, AddAll([], Blocks(schema)), BesideDefinitions(Strip(schema)));
  }

  // ---- normalizing twice ----

  /** A local reference that exists only because a definition is called `$ref`. */
  predicate NeedsRefName(decode: string -> string, schema: Json, ref: string)
    requires schema.Obj?
  {
    LOCAL <= ref &&
    var raw, others := ref[|LOCAL|..], INHERITED + Defined(decode, schema);
    && (raw == "$ref" || decode(raw) == "$ref")
    && raw !in others && decode(raw) !in others
  }

  /** Normalizing twice is normalizing once, exactly when no definition called `$ref` is pruned away as if it were a
      reference, or other definitions remain and no reference needs the lost one. */
  lemma NormalizeIsIdempotentExactlyWhen(decode: string -> string, schema: Json)
    requires Regular(schema)
    ensures var result := Normalize(decode, schema);
            Normalize(decode, result) == result <==>
              || !LosesRefDefinition(decode, schema)
              || (&& Defined(decode, schema) != {}
                  && forall r :: r in Refs(Collected(schema)) ==> !NeedsRefName(decode, schema, r))
  {
    var defs, body, block := Shape(decode, schema);
    var result := Normalize(decode, schema);
    PrunedRefs(decode, defs, Collected(schema));
    if defs == [] {
      NothingToStripMembers(body);
      PruneKeepsAll(decode, [], result);
    } else if block == [] {
      EmptyBlockGoes(decode, body);
    } else {
      HoistedAgain(body, block);
      PruneKeepsAll(decode, block, result);
      forall r | r in Refs(Collected(schema))
        ensures RefExists(decode, defs, r) && !RefExists(decode, block, r)
           <==> LosesRefDefinition(decode, schema) && NeedsRefName(decode, schema, r)
      {
        LostName(decode, schema, block, r);
      }
    }
  }

  /** What the second pass no longer finds. */
  lemma LostName(decode: string -> string, schema: Json, block: seq<Member>, r: string)
    requires Regular(schema) && Names(block) == Defined(decode, schema)
    ensures RefExists(decode, AddAll([], Blocks(schema)), r) && !RefExists(decode, block, r)
       <==> LosesRefDefinition(decode, schema) && NeedsRefName(decode, schema, r)
  {
    assert Spread(Find(StripMembers(schema.members), "definitions")) == [];
  }

  lemma HoistedAgain(body: seq<Member>, block: seq<Member>)
    requires NoBlocksMembers(body) && "definitions" !in Names(body) && block != []
    requires Distinct(block) && Names(block) !! INHERITED
    ensures var result := Obj(body + [Member("definitions", Obj(block))]);
            AddAll([], Blocks(result)) == block && Hoist(Strip(result), block) == result
  {
    var members := body + [Member("definitions", Obj(block))];
    BlockLast(body, block);
    assert Blocks(Obj(members)) == block + [] == block;
    assert [] + block == block;
    AddAllKeeps([], block);
    HoistAppends(body, block);
  }

  /** An empty block at the root is not hoisted again. */
  lemma EmptyBlockGoes(decode: string -> string, body: seq<Member>)
    requires NoBlocksMembers(body)
    ensures var result := Obj(body + [Member("definitions", Obj([]))]);
            Normalize(decode, result) == Obj(PruneMembers(decode, [], body)) != result
  {
    var members := body + [Member("definitions", Obj([]))];
    BlockLast(body, []);
    assert Blocks(Obj(members)) == [] + [] == [];
    PruneShortens(decode, [], body);
  }

  lemma {:induction false} PruneShortens(decode: string -> string, defs: seq<Member>, ms: seq<Member>)
    ensures |PruneMembers(decode, defs, ms)| <= |ms|
  {
    if ms != [] { PruneShortens(decode, defs, ms[1..]); }
  }

  /** A class with a property called `definitions` whose schema is a lone reference. */
  function Referencing(ref: Member): (schema: Json) {
    Obj([Member("properties", Obj([Member("definitions", Obj([ref]))]))])
  }

  /** The schema of that property is taken for a block with one definition `$ref`, which is then dropped; the second
      pass drops the empty block that it leaves. */
  lemma ReferencedPropertyIsLost(decode: string -> string)
    requires decode("Foo") == "Foo"
    ensures var properties := Member("properties", Obj([]));
            var result := Obj([properties, Member("definitions", Obj([]))]);
            && Normalize(decode, Referencing(Member("$ref", Str("#/definitions/Foo")))) == result
            && Normalize(decode, result) == Obj([properties])
  {
    var ref := Member("$ref", Str("#/definitions/Foo"));
    assert "#/definitions/Foo" == "#/definitions/" + "Foo" && ("#/definitions/" + "Foo")[|LOCAL|..] == "Foo";
    Alone(ref);
    PropertyIsCollected(ref);
    LeavesEmptyBlock(decode, ref, Member("properties", Obj([])));
  }

  lemma LeavesEmptyBlock(decode: string -> string, ref: Member, other: Member)
    requires Dropped(decode, [ref], ref) && other.key == "properties" && other.value == Obj([])
    ensures var result := Obj([other, Member("definitions", Obj([]))]);
            && Prune(decode, [ref], Hoist(Obj([other]), [ref])) == result
            && Normalize(decode, result) == Obj([other])
  {
    Alone(other);
    PruneOne(decode, [ref], ref);
    PruneOne(decode, [ref], other);
    PruneOne(decode, [], other);
    assert NoBlocks(other.value) && NoBlocksMembers([other]);
    HoistAppends([other], [ref]);
    PruneLast(decode, [ref], [other], [ref]);
    EmptyBlockGoes(decode, [other]);
    assert [other] + [Member("definitions", Obj([]))] == [other, Member("definitions", Obj([]))];
  }

  lemma PropertyIsCollected(ref: Member)
    requires ref.key == "$ref"
    ensures Strip(Referencing(ref)) == Obj([Member("properties", Obj([]))])
    ensures AddAll([], Blocks(Referencing(ref))) == [ref]
  {
    var block := Member("definitions", Obj([ref]));
    StripOne(block);
    BlocksOfOne(block);
    assert Blocks(Obj([block])) == [ref] + [] == [ref];
    StripOne(Member("properties", Obj([block])));
    BlocksOfOne(Member("properties", Obj([block])));
    assert Blocks(Referencing(ref)) == [] + [ref] == [ref];
    AddOne(ref);
  }
}
