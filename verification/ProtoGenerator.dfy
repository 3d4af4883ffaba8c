/** packages/grpc/src/proto-generator.ts: names. `decode` is decodeURIComponent, or the identity on a
    string it throws on. */
module ProtoNames {
  predicate IsLower(c: char) { 'a' <= c <= 'z' }
  predicate IsLetter(c: char) { 'a' <= c <= 'z' || 'A' <= c <= 'Z' }
  predicate IsDigit(c: char) { '0' <= c <= '9' }
  predicate IsWord(c: char) { IsLetter(c) || IsDigit(c) }

  function Upper(c: char): (u: char)
    ensures IsWord(c) ==> IsWord(u) && (IsDigit(u) <==> IsDigit(c))
  {
    if IsLower(c) then ((c as int) - 32) as char else c
  }

  function Capitalize(s: string): (r: string) {
    if s == "" then "" else [Upper(s[0])] + s[1..]
  }

  /** `split("/").pop()`. */
  function AfterLastSlash(s: string): (r: string)
  {
    if s == "" then "" else
      if '/' in s[1..] then AfterLastSlash(s[1..]) else if s[0] == '/' then s[1..] else s
  }

  function AfterFirst(s: string, c: char): (r: string)
    requires c in s
    decreases |s|
    ensures |AfterFirst(s, c)| < |s|
  {
    if s[0] == c then s[1..] else AfterFirst(s[1..], c)
  }

  /** `replace(/<[^>]*>/g, "")`. */
  function StripGenerics(s: string): (r: string)
    decreases |s|
  {
    if s == "" then ""
    else if s[0] == '<' && '>' in s then StripGenerics(AfterFirst(s, '>'))
    else [s[0]] + StripGenerics(s[1..])
  }

  /** Splitting on everything else than letters and digits, capitalizing the words and joining them:
      `start` says that a word would start here. */
  function Pascal(s: string, start: bool): (r: string)
    ensures forall i :: 0 <= i < |r| ==> IsWord(r[i])
    decreases |s|
  {
    if s == "" then ""
    else if IsWord(s[0]) then [if start then Upper(s[0]) else s[0]] + Pascal(s[1..], false)
    else Pascal(s[1..], true)
  }

  /** `schemaToMessageName`. */
  function MessageName(decode: string -> string, schemaRef: string): (name: string)
    ensures IsIdentifier(name)
  {
    var pascal := Pascal(StripGenerics(AfterLastSlash(decode(schemaRef))), true);
    var cleaned := if pascal == "" then "Empty" else pascal;
    if IsLetter(cleaned[0]) then cleaned else "_" + cleaned
  }

  /** proto3 accepts exactly these as identifiers. */
  predicate IsIdentifier(s: string) {
    s != "" && (IsLetter(s[0]) || s[0] == '_') && forall i :: 0 <= i < |s| ==> IsWord(s[i]) || s[i] == '_'
  }

  /** `replace(pattern, "")`: the first occurrence only. */
  function RemoveFirst(s: string, pattern: string): (r: string)
    requires pattern != ""
    decreases |s|
  {
    if pattern <= s then s[|pattern|..]
    else if s == "" then ""
    else [s[0]] + RemoveFirst(s[1..], pattern)
  }

  // ---- which name a reference gets ----

  /** Letters and digits, at least one. */
  predicate IsPlainWord(w: string) {
    w != "" && forall i :: 0 <= i < |w| ==> IsWord(w[i])
  }

  /** A name such as TypeScript types have: it starts with an upper-case letter. */
  predicate IsTypeWord(w: string) {
    IsPlainWord(w) && 'A' <= w[0] <= 'Z'
  }

  lemma {:induction false} NoSlash(s: string)
    requires '/' !in s
    ensures AfterLastSlash(s) == s
  {
    if s != "" { assert s[0] in s && forall c :: c in s[1..] ==> c in s; }
  }

  lemma {:induction false} LastSegment(prefix: string, name: string)
    requires '/' !in name
    ensures AfterLastSlash(prefix + "/" + name) == name
  {
    var s := prefix + "/" + name;
    if prefix == "" {
      assert s[0] == '/' && s[1..] == name;
    } else {
      var rest := prefix[1..] + "/" + name;
      assert s[0] == prefix[0] && s[1..] == rest;
      assert rest[|prefix| - 1] == '/';
      LastSegment(prefix[1..], name);
    }
  }

  lemma {:induction false} NothingToStrip(s: string)
    requires '<' !in s
    ensures StripGenerics(s) == s
  {
    if s != "" {
      assert s[0] in s && forall c :: c in s[1..] ==> c in s;
      NothingToStrip(s[1..]);
    }
  }

  lemma {:induction false} AfterFirstIs(a: string, c: char, b: string)
    requires c !in a
    ensures c in a + [c] + b && AfterFirst(a + [c] + b, c) == b
    decreases |a|
  {
    var s := a + [c] + b;
    assert s[|a|] == c;
    if a == "" {
      assert s[0] == c && s[1..] == b;
    } else {
      assert a[0] in a && forall x :: x in a[1..] ==> x in a;
      assert s[0] == a[0] && s[1..] == a[1..] + [c] + b;
      AfterFirstIs(a[1..], c, b);
    }
  }

  /** Arguments in angle brackets go, and what stands around them stays. */
  lemma {:induction false} ArgumentsGo(name: string, args: string, rest: string)
    requires '<' !in name && '>' !in args
    ensures StripGenerics(name + ("<" + args + ">" + rest)) == name + StripGenerics(rest)
    decreases |name|
  {
    var tail := "<" + args + ">" + rest;
    if name == "" {
      AfterFirstIs("<" + args, '>', rest);
      assert name + tail == tail && tail == ("<" + args) + ['>'] + rest && tail[0] == '<';
      assert name + StripGenerics(rest) == StripGenerics(rest);
    } else {
      assert name[0] in name && forall x :: x in name[1..] ==> x in name;
      assert (name + tail)[0] == name[0] && (name + tail)[1..] == name[1..] + tail;
      ArgumentsGo(name[1..], args, rest);
    }
  }

  lemma {:induction false} InnerWord(w: string, rest: string)
    requires forall i :: 0 <= i < |w| ==> IsWord(w[i])
    ensures Pascal(w + rest, false) == w + Pascal(rest, false)
    decreases |w|
  {
    if w == "" {
      assert w + rest == rest && w + Pascal(rest, false) == Pascal(rest, false);
    } else {
      assert (w + rest)[0] == w[0] && (w + rest)[1..] == w[1..] + rest;
      InnerWord(w[1..], rest);
    }
  }

  /** The words are capitalized and joined; the characters between them go. */
  lemma WordsAreJoined(w: string, c: char, rest: string)
    requires IsPlainWord(w) && !IsWord(c)
    ensures Pascal(w + ([c] + rest), true) == Capitalize(w) + Pascal(rest, true)
    ensures Pascal(w, true) == Capitalize(w)
  {
    var tail := [c] + rest;
    assert (w + tail)[0] == w[0] && (w + tail)[1..] == w[1..] + tail && tail[0] == c && tail[1..] == rest;
    InnerWord(w[1..], tail);
    InnerWord(w[1..], "");
    assert w[1..] + "" == w[1..];
  }

  lemma NoSlashInWord(w: string, args: string)
    requires IsPlainWord(w) && '/' !in args
    ensures '/' !in w && '<' !in w && '/' !in w + ("<" + args + ">" + "")
  {
  }

  /** The name of a word: capitalized if it starts with a letter, behind an underscore if it starts with a digit. */
  function WordName(w: string): (name: string)
    requires IsPlainWord(w)
  {
    if IsDigit(w[0]) then "_" + w else [Upper(w[0])] + w[1..]
  }

  /** A reference to a word is called by it, whatever its path and whatever its type arguments. */
  lemma NameOfWord(decode: string -> string, path: string, w: string, args: string)
    requires IsPlainWord(w) && '/' !in args && '>' !in args
    ensures decode(w) == w ==> MessageName(decode, w) == WordName(w)
    ensures var ref := path + "/" + w; decode(ref) == ref ==> MessageName(decode, ref) == WordName(w)
    ensures var ref := w + ("<" + args + ">" + ""); decode(ref) == ref ==> MessageName(decode, ref) == WordName(w)
    ensures var ref := path + "/" + (w + ("<" + args + ">" + ""));
            decode(ref) == ref ==> MessageName(decode, ref) == WordName(w)
  {
    var generic := w + ("<" + args + ">" + "");
    NoSlashInWord(w, args);
    NoSlash(w);
    NoSlash(generic);
    LastSegment(path, w);
    LastSegment(path, generic);
    NothingToStrip(w);
    ArgumentsGo(w, args, "");
    assert w + StripGenerics("") == w;
    WordsAreJoined(w, '-', "");
  }

  /** Two words with anything else between them are both capitalized. */
  lemma NameOfTwoWords(decode: string -> string, w: string, c: char, v: string)
    requires IsPlainWord(w) && IsPlainWord(v) && IsLetter(w[0]) && !IsWord(c) && c != '/' && c != '<'
    requires decode(w + ([c] + v)) == w + ([c] + v)
    ensures MessageName(decode, w + ([c] + v)) == WordName(w) + Capitalize(v)
  {
    var ref := w + ([c] + v);
    assert '/' !in ref && '<' !in ref;
    NoSlash(ref);
    NothingToStrip(ref);
    WordsAreJoined(w, c, v);
    WordsAreJoined(v, c, "");
  }

  /** A type is called by its own name; so two types are never called the same. */
  lemma NameOfType(decode: string -> string, w: string)
    requires IsTypeWord(w) && decode(w) == w
    ensures MessageName(decode, w) == w
  {
    NameOfWord(decode, "", w, "");
  }

  /** What has no letter or digit is called Empty. */
  lemma {:induction false} NothingIsLeft(s: string)
    requires forall i :: 0 <= i < |s| ==> !IsWord(s[i])
    ensures Pascal(s, true) == ""
  {
    if s != "" { NothingIsLeft(s[1..]); }
  }

  lemma NameOfNothing(decode: string -> string, ref: string)
    requires forall i :: 0 <= i < |ref| ==> !IsWord(ref[i])
    requires decode(ref) == ref && '/' !in ref && '<' !in ref
    ensures MessageName(decode, ref) == "Empty"
  {
    NoSlash(ref);
    NothingToStrip(ref);
    NothingIsLeft(ref);
  }
}

/** packages/grpc/src/proto-generator.ts: the walk over JSON schemas. */
module ProtoGenerator {
  import opened Common
  import opened ProtoNames
  import opened Reachability

  /** The parts of a JSON schema that the generator reads; "" is an absent string. */
  datatype Schema = Schema(
    ref: string,
    typ: string,
    format: string,
    hasProperties: bool,
    properties: seq<Property>,
    required: seq<string>,
    items: Option<Schema>,
    definitions: seq<Property>)

  datatype Property = Property(name: string, schema: Schema)

  const EMPTY_SCHEMA := Schema("", "", "", false, [], [], None, [])

  datatype Rule = Repeated | Required | Optional

  datatype Field = Field(rule: Rule, typ: string, name: string, number: nat)

  /** An entry of the `messages` map: the empty string that breaks cycles, or a finished definition. */
  datatype Definition = Placeholder | Message(name: string, fields: seq<Field>)

  type Registry = map<string, Schema>

  const STRUCT := "google.protobuf.Struct"
  const EMPTY := "google.protobuf.Empty"
  const SCALARS: set<string> := {"string", "int64", "float", "int32", "double", "bool"}

  const DEFINITIONS := "#/definitions/"
  const COMPONENTS := "#/components/schemas/"

  function RawName(ref: string): (r: string) {
    RemoveFirst(RemoveFirst(ref, DEFINITIONS), COMPONENTS)
  }

  function Target(decode: string -> string, all: Registry, raw: string): (r: Option<Schema>) {
    if raw in all then Some(all[raw]) else if decode(raw) in all then Some(all[decode(raw)]) else None
  }

  /** The scalar branches of the type switch; None where the switch goes on to object and array. */
  function ScalarType(typ: string, format: string): (t: Option<string>)
    ensures t.Some? ==> t.value in SCALARS
  {
    match typ
    case "string" => Some(if format == "int64" then "int64" else "string")
    case "number" =>
      Some(if format == "float" then "float"
           else if format == "int32" || format == "integer" then "int32"
           else if format == "int64" then "int64" else "double")
    case "integer" => Some(if format == "int64" then "int64" else "int32")
    case "boolean" => Some("bool")
    case _ => None
  }

  /** What comes out as each scalar, and what as none. */
  lemma ScalarsMean(typ: string, format: string)
    ensures var t := ScalarType(typ, format);
            && (t == Some("bool") <==> typ == "boolean")
            && (t == Some("string") <==> typ == "string" && format != "int64")
            && (t == Some("float") <==> typ == "number" && format == "float")
            && (t == Some("double") <==> typ == "number" && format !in {"float", "int32", "integer", "int64"})
            && (t == Some("int64") <==> typ in {"string", "number", "integer"} && format == "int64")
            && (t == Some("int32") <==> (typ == "number" && format in {"int32", "integer"})
                                        || (typ == "integer" && format != "int64"))
            && (t == None <==> typ !in {"string", "number", "integer", "boolean"})
  {
  }

  function ItemsOf(s: Schema): (r: Schema) {
    if s.items.Some? then s.items.value else EMPTY_SCHEMA
  }

  function PropertiesOf(s: Schema): (r: seq<Property>) {
    if s.hasProperties then s.properties else []
  }

  // ---- what a generated file has to say ----

  /** The type the schema of a field denotes while the map holds `names`: an unresolvable `#/definitions/` reference is
      taken for the message of its name if there is one, and for Struct if not. */
  function TypeOf(decode: string -> string, all: Registry, names: set<string>, field: string, s: Schema, parent: string)
    : (t: string)
    decreases s
  {
    if s.ref != "" then
      var name := MessageName(decode, RawName(s.ref));
      if !(COMPONENTS <= s.ref) && Target(decode, all, RawName(s.ref)).None? && name !in names then STRUCT else name
    else if ScalarType(s.typ, s.format).Some? then ScalarType(s.typ, s.format).value
    else if s.typ == "object" && s.hasProperties then parent + Capitalize(field)
    else if s.typ == "array" && s.items.Some? then TypeOf(decode, all, names, field, s.items.value, parent)
    else STRUCT
  }

  /** `t` is the type of the field's schema, whether or not there is a message called `t` by then. */
  predicate Denotes(decode: string -> string, all: Registry, field: string, s: Schema, parent: string, t: string) {
    t == TypeOf(decode, all, {}, field, s, parent) || t == TypeOf(decode, all, {t}, field, s, parent)
  }

  lemma {:induction false} TypeIsDenoted(decode: string -> string, all: Registry, names: set<string>, field: string,
                                         s: Schema, parent: string)
    ensures Denotes(decode, all, field, s, parent, TypeOf(decode, all, names, field, s, parent))
    decreases s
  {
    if s.ref == "" && s.items.Some? { TypeIsDenoted(decode, all, names, field, s.items.value, parent); }
  }

  function RuleOf(s: Schema, p: Property): (r: Rule) {
    if p.schema.typ == "array" then Repeated else if p.name in s.required then Required else Optional
  }

  /** The schema whose type the field line names. */
  function FieldSchema(p: Property): (r: Schema) {
    if p.schema.typ == "array" then ItemsOf(p.schema) else p.schema
  }

  /** A schema that is to be defined under a message name. */
  datatype Ask = Ask(name: string, schema: Schema)

  /** What the type of a field asks for: the target of its reference, or the nested object itself. */
  function AskOf(decode: string -> string, all: Registry, field: string, s: Schema, parent: string): (a: Option<Ask>)
    decreases s
  {
    if s.ref != "" then
      var target := Target(decode, all, RawName(s.ref));
      if target.Some? then Some(Ask(MessageName(decode, RawName(s.ref)), target.value)) else None
    else if ScalarType(s.typ, s.format).Some? then None
    else if s.typ == "object" && s.hasProperties then Some(Ask(parent + Capitalize(field), s))
    else if s.typ == "array" && s.items.Some? then AskOf(decode, all, field, s.items.value, parent)
    else None
  }

  function AsSet(a: Option<Ask>): (asks: set<Ask>) {
    if a.Some? then {a.value} else {}
  }

  /** A property's schema is walked, and of an array its items again. */
  function FieldAsks(decode: string -> string, all: Registry, p: Property, parent: string): (asks: set<Ask>) {
    AsSet(AskOf(decode, all, p.name, p.schema, parent)) + AsSet(AskOf(decode, all, p.name, FieldSchema(p), parent))
  }

  predicate Asks(decode: string -> string, all: Registry, from: Ask, to: Ask) {
    exists i :: 0 <= i < |PropertiesOf(from.schema)|
             && to in FieldAsks(decode, all, PropertiesOf(from.schema)[i], from.name)
  }

  function AskRelation(decode: string -> string, all: Registry): (next: (Ask, Ask) -> bool) {
    (a, b) => Asks(decode, all, a, b)
  }

  /** An operation asks for it, or a field of something that is reached. */
  ghost predicate Reached(decode: string -> string, all: Registry, roots: seq<Ask>, a: Ask) {
    ReachedFrom(roots, AskRelation(decode, all), a)
  }

  /** Field i of message `name` is what property i of its schema asks for, numbered i + 1; its type is known (a scalar,
      Struct, one of the names defined, or a trusted components reference), and what it asks for is defined. */
  ghost predicate FieldOk(decode: string -> string, all: Registry, names: set<string>, name: string, s: Schema, i: nat,
                          f: Field)
    requires i < |PropertiesOf(s)|
  {
    var p := PropertiesOf(s)[i];
    && f.name == p.name && f.number == i + 1
    && (f.rule == Repeated <==> p.schema.typ == "array")
    && (f.rule == Required <==> p.schema.typ != "array" && p.name in s.required)
    && Denotes(decode, all, p.name, FieldSchema(p), name, f.typ)
    && Known(decode, all, names, f.typ)
    && forall a :: a in FieldAsks(decode, all, p, name) ==> a.name in names
  }

  ghost predicate Known(decode: string -> string, all: Registry, names: set<string>, t: string) {
    t in SCALARS || t == STRUCT || t in names || Dangling(decode, all, t)
  }

  /** The first fields of the message for schema s. */
  ghost predicate FieldsOk(decode: string -> string, all: Registry, names: set<string>, name: string, s: Schema,
                           fields: seq<Field>)
  {
    && |fields| <= |PropertiesOf(s)|
    && forall i :: 0 <= i < |fields| ==> FieldOk(decode, all, names, name, s, i, fields[i])
  }

  /** A finished definition for schema s. */
  ghost predicate MessageOk(decode: string -> string, all: Registry, names: set<string>, name: string, s: Schema,
                            def: Definition)
  {
    && def.Message? && def.name == name && |def.fields| == |PropertiesOf(s)|
    && FieldsOk(decode, all, names, name, s, def.fields)
  }

  /** What a message says of its schema: one field for each property, in order, none without properties. */
  lemma MessageMeans(decode: string -> string, all: Registry, names: set<string>, name: string, s: Schema,
                     def: Definition)
    requires MessageOk(decode, all, names, name, s, def)
    ensures def.Message? && def.name == name
    ensures !s.hasProperties ==> def.fields == []
    ensures s.hasProperties ==>
              |def.fields| == |s.properties| && forall i :: 0 <= i < |s.properties| ==>
                FieldFits(decode, all, name, s.properties[i], s.required, i, def.fields[i])
  {
    forall i | 0 <= i < |PropertiesOf(s)|
      ensures FieldFits(decode, all, name, PropertiesOf(s)[i], s.required, i, def.fields[i])
    {
      assert FieldOk(decode, all, names, name, s, i, def.fields[i]);
    }
  }

  /** The field of a property: of an array it repeats the type of the items, of anything else it has its own type. */
  predicate FieldFits(decode: string -> string, all: Registry, parent: string, p: Property, required: seq<string>,
                      i: nat, f: Field)
  {
    && f.name == p.name && f.number == i + 1
    && (if p.schema.typ == "array" then
          f.rule == Repeated
          && (if p.schema.items.Some? then Denotes(decode, all, p.name, p.schema.items.value, parent, f.typ)
              else f.typ == "google.protobuf.Struct")
        else
          f.rule == (if p.name in required then Required else Optional)
          && Denotes(decode, all, p.name, p.schema, parent, f.typ))
  }

  lemma MoreNames(decode: string -> string, all: Registry, names: set<string>, names': set<string>, name: string,
                  s: Schema, fields: seq<Field>)
    requires names <= names' && FieldsOk(decode, all, names, name, s, fields)
    ensures FieldsOk(decode, all, names', name, s, fields)
  {
    forall i | 0 <= i < |fields| ensures FieldOk(decode, all, names', name, s, i, fields[i]) {
      assert FieldOk(decode, all, names, name, s, i, fields[i]);
    }
  }

  lemma OneMoreField(decode: string -> string, all: Registry, names: set<string>, names': set<string>, name: string,
                     s: Schema, fields: seq<Field>, f: Field)
    requires names <= names' && FieldsOk(decode, all, names, name, s, fields)
    requires |fields| < |PropertiesOf(s)| && FieldOk(decode, all, names', name, s, |fields|, f)
    ensures FieldsOk(decode, all, names', name, s, fields + [f])
  {
    MoreNames(decode, all, names, names', name, s, fields);
  }

  // ---- the schemas a walk can meet ----

  /** `s` is `t` or one of the schemas inside it. */
  predicate Within(s: Schema, t: Schema)
    decreases t
  {
    || s == t
    || (t.items.Some? && Within(s, t.items.value))
    || (t.hasProperties && exists i :: 0 <= i < |t.properties| && Within(s, t.properties[i].schema))
  }

  ghost predicate InRegistry(all: Registry, s: Schema) {
    s == EMPTY_SCHEMA || exists k :: k in all && Within(s, all[k])
  }

  lemma {:induction false} WithinTrans(s: Schema, t: Schema, u: Schema)
    requires Within(s, t) && Within(t, u)
    ensures Within(s, u)
    decreases u
  {
    if t != u {
      if u.items.Some? && Within(t, u.items.value) {
        WithinTrans(s, t, u.items.value);
      } else {
        var i :| 0 <= i < |u.properties| && Within(t, u.properties[i].schema);
        WithinTrans(s, t, u.properties[i].schema);
      }
    }
  }

  lemma InnerInRegistry(all: Registry, s: Schema, t: Schema)
    requires InRegistry(all, t) && Within(s, t)
    ensures InRegistry(all, s)
  {
    if t != EMPTY_SCHEMA {
      var k :| k in all && Within(t, all[k]);
      WithinTrans(s, t, all[k]);
    }
  }

  /** The message names the references inside a schema can ask for: a finite set. */
  function RefNames(decode: string -> string, s: Schema): (names: set<string>)
    decreases s
  {
    (if s.ref != "" then {MessageName(decode, RawName(s.ref))} else {})
    + (if s.items.Some? then RefNames(decode, s.items.value) else {})
    + (if s.hasProperties then
         set i, n | 0 <= i < |s.properties| && n in RefNames(decode, s.properties[i].schema) :: n
       else {})
  }

  function Universe(decode: string -> string, all: Registry): (names: set<string>) {
    set k, n | k in all && n in RefNames(decode, all[k]) :: n
  }

  lemma {:induction false} RefNamesWithin(decode: string -> string, s: Schema, t: Schema)
    requires Within(s, t)
    ensures RefNames(decode, s) <= RefNames(decode, t)
    decreases t
  {
    if s != t {
      if t.items.Some? && Within(s, t.items.value) {
        RefNamesWithin(decode, s, t.items.value);
      } else {
        var i :| 0 <= i < |t.properties| && Within(s, t.properties[i].schema);
        RefNamesWithin(decode, s, t.properties[i].schema);
      }
    }
  }

  /** Every name a walked reference asks for is in the universe. */
  lemma RefInUniverse(decode: string -> string, all: Registry, s: Schema)
    requires InRegistry(all, s) && s.ref != ""
    ensures MessageName(decode, RawName(s.ref)) in Universe(decode, all)
  {
    var k :| k in all && Within(s, all[k]);
    RefNamesWithin(decode, s, all[k]);
    assert MessageName(decode, RawName(s.ref)) in RefNames(decode, s);
  }

  /** A `#/components/schemas/` reference that nothing in the registry resolves: its name is trusted. */
  ghost predicate Dangling(decode: string -> string, all: Registry, t: string) {
    exists s: Schema :: InRegistry(all, s) && s.ref != "" && COMPONENTS <= s.ref
      && Target(decode, all, RawName(s.ref)).None? && t == MessageName(decode, RawName(s.ref))
  }

  ghost predicate ComponentsResolve(decode: string -> string, all: Registry) {
    forall s: Schema :: InRegistry(all, s) && COMPONENTS <= s.ref ==> Target(decode, all, RawName(s.ref)).Some?
  }

  /** What a walk does to the shared map: what was there stays, and what is new is finished. */
  ghost predicate Grown(before: map<string, Definition>, madeBefore: map<string, Schema>,
                        after: map<string, Definition>, madeAfter: map<string, Schema>)
  {
    && before.Keys <= after.Keys
    && (forall n :: n in before ==> after[n] == before[n])
    && (forall n :: n in before && n in madeBefore ==> n in madeAfter && madeAfter[n] == madeBefore[n])
    && (forall n :: n in after && n !in before ==> after[n].Message?)
  }

  lemma Shrinks(universe: set<string>, before: set<string>, after: set<string>)
    requires before <= after
    ensures |universe - after| <= |universe - before|
    ensures (exists n :: n in universe && n in after && n !in before) ==> |universe - after| < |universe - before|
  {
    var a, b := universe - after, universe - before;
    assert a <= b;
    SubsetSmaller(a, b);
    if n :| n in universe && n in after && n !in before {
      assert a <= b - {n};
      SubsetSmaller(a, b - {n});
    }
  }

  /** Every finished definition follows a schema that was reached under its name. */
  ghost predicate AllMade(decode: string -> string, all: Registry, roots: seq<Ask>, messages: map<string, Definition>,
                          made: map<string, Schema>)
  {
    forall n :: n in messages && messages[n].Message? ==>
      n in made && IsMade(decode, all, roots, messages.Keys, n, made[n], messages[n])
  }

  ghost predicate IsMade(decode: string -> string, all: Registry, roots: seq<Ask>, names: set<string>, n: string,
                         from: Schema, def: Definition)
  {
    Reached(decode, all, roots, Ask(n, from)) && MessageOk(decode, all, names, n, from, def)
  }

  lemma MadeWithMoreRoots(decode: string -> string, all: Registry, roots: seq<Ask>, more: seq<Ask>,
                          messages: map<string, Definition>, made: map<string, Schema>)
    requires AllMade(decode, all, roots, messages, made)
    ensures AllMade(decode, all, roots + more, messages, made)
  {
    forall n | n in messages && messages[n].Message?
      ensures n in made && IsMade(decode, all, roots + more, messages.Keys, n, made[n], messages[n])
    {
      assert IsMade(decode, all, roots, messages.Keys, n, made[n], messages[n]);
      MoreRootsReach(roots, more, AskRelation(decode, all), Ask(n, made[n]));
    }
  }

  lemma MadeWithMoreNames(decode: string -> string, all: Registry, roots: seq<Ask>, names: set<string>,
                          names': set<string>, n: string, from: Schema, def: Definition)
    requires names <= names' && IsMade(decode, all, roots, names, n, from, def)
    ensures IsMade(decode, all, roots, names', n, from, def)
  {
    MoreNames(decode, all, names, names', n, from, def.fields);
  }

  lemma MadeWithPlaceholder(decode: string -> string, all: Registry, roots: seq<Ask>, messages: map<string, Definition>,
                            made: map<string, Schema>, name: string)
    requires AllMade(decode, all, roots, messages, made)
    ensures AllMade(decode, all, roots, messages[name := Placeholder], made)
  {
    var after := messages[name := Placeholder];
    forall n | n in after && after[n].Message?
      ensures n in made && IsMade(decode, all, roots, after.Keys, n, made[n], after[n])
    {
      MadeWithMoreNames(decode, all, roots, messages.Keys, after.Keys, n, made[n], after[n]);
    }
  }

  lemma MadeWithMessage(decode: string -> string, all: Registry, roots: seq<Ask>, messages: map<string, Definition>,
                        made: map<string, Schema>, name: string, def: Definition, from: Schema)
    requires AllMade(decode, all, roots, messages, made)
    requires IsMade(decode, all, roots, messages.Keys, name, from, def)
    ensures AllMade(decode, all, roots, messages[name := def], made[name := from])
  {
    var after, madeAfter := messages[name := def], made[name := from];
    forall n | n in after && after[n].Message?
      ensures n in madeAfter && IsMade(decode, all, roots, after.Keys, n, madeAfter[n], after[n])
    {
      MadeWithMoreNames(decode, all, roots, messages.Keys, after.Keys, n, madeAfter[n], after[n]);
    }
  }

  lemma FieldIsAnswered(decode: string -> string, all: Registry, p: Property, parent: string, names: set<string>)
    requires var a := AskOf(decode, all, p.name, p.schema, parent); a.Some? ==> a.value.name in names
    requires var a := AskOf(decode, all, p.name, FieldSchema(p), parent); a.Some? ==> a.value.name in names
    ensures forall a :: a in FieldAsks(decode, all, p, parent) ==> a.name in names
  {
  }

  lemma FieldAsksThese(decode: string -> string, all: Registry, p: Property, parent: string)
    ensures var a := AskOf(decode, all, p.name, p.schema, parent);
            a.Some? ==> a.value in FieldAsks(decode, all, p, parent)
    ensures var a := AskOf(decode, all, p.name, FieldSchema(p), parent);
            a.Some? ==> a.value in FieldAsks(decode, all, p, parent)
  {
  }

  lemma TakenIsReached(decode: string -> string, all: Registry, roots: seq<Ask>, messages: map<string, Definition>,
                       made: map<string, Schema>, name: string)
    requires AllMade(decode, all, roots, messages, made) && name in messages && messages[name].Message?
    ensures name in made && exists s :: Reached(decode, all, roots, Ask(name, s))
  {
    assert IsMade(decode, all, roots, messages.Keys, name, made[name], messages[name]);
  }

  lemma FinishedAfter(before: map<string, Definition>, madeBefore: map<string, Schema>, mid: map<string, Definition>,
                      madeMid: map<string, Schema>, name: string, def: Definition, from: Schema)
    requires (forall n :: n in before ==> before[n].Message?) && Grown(before, madeBefore, mid, madeMid)
    requires madeBefore.Keys <= before.Keys && name !in before && def.Message?
    ensures var after := mid[name := def]; forall n :: n in after ==> after[n].Message?
    ensures var after := madeMid[name := from]; forall n :: n in madeBefore ==> n in after && after[n] == madeBefore[n]
  {
  }

  lemma GrownTwice(m0: map<string, Definition>, made0: map<string, Schema>, m1: map<string, Definition>,
                   made1: map<string, Schema>, m2: map<string, Definition>, made2: map<string, Schema>)
    requires Grown(m0, made0, m1, made1) && Grown(m1, made1, m2, made2)
    ensures Grown(m0, made0, m2, made2)
  {
  }

  /** The recursion over one registry; `messages` is shared by all of it. */
  class Generator {
    const decode: string -> string
    const all: Registry
    /** The Map's keys in insertion order. */
    var order: seq<string>
    var messages: map<string, Definition>
    /** The schema each finished definition was generated from, and what operations have asked for. */
    ghost var made: map<string, Schema>
    ghost var roots: seq<Ask>

    constructor (decode: string -> string, all: Registry)
      ensures this.decode == decode && this.all == all && messages == map[] && roots == [] && Valid()
    {
      this.decode, this.all := decode, all;
      order, messages, made, roots := [], map[], map[], [];
    }

    ghost predicate Valid()
      reads this
    {
      && (forall i, j :: 0 <= i < j < |order| ==> order[i] != order[j])
      && (forall n :: n in order <==> n in messages)
      && made.Keys <= messages.Keys
      && AllMade(decode, all, roots, messages, made)
    }

    /** An operation asks for a schema. */
    ghost method AddRoot(a: Ask)
      requires Valid()
      modifies this`roots
      ensures Valid() && roots == old(roots) + [a] && Reached(decode, all, roots, a)
    {
      MadeWithMoreRoots(decode, all, roots, [a], messages, made);
      roots := roots + [a];
      RootReached(roots, AskRelation(decode, all), a);
    }

    /** `Map.set` of the empty string that breaks cycles. */
    method SetPlaceholder(name: string)
      requires Valid() && name !in messages
      modifies this
      ensures Valid() && messages == old(messages)[name := Placeholder] && made == old(made) && roots == old(roots)
    {
      MadeWithPlaceholder(decode, all, roots, messages, made, name);
      order := order + [name];
      messages := messages[name := Placeholder];
    }

    /** `Map.set` of a finished definition. */
    method SetMessage(name: string, def: Definition, ghost from: Schema)
      requires Valid() && MessageOk(decode, all, messages.Keys, name, from, def)
      requires Reached(decode, all, roots, Ask(name, from))
      modifies this
      ensures Valid() && roots == old(roots)
      ensures messages == old(messages)[name := def] && made == old(made)[name := from]
    {
      MadeWithMessage(decode, all, roots, messages, made, name, def, from);
      if name !in messages { order := order + [name]; }
      messages := messages[name := def];
      made := made[name := from];
    }

    /** No placeholder is left. */
    ghost predicate Finished()
      reads this
    {
      forall n :: n in messages ==> messages[n].Message?
    }

    /** An operation asks for a schema: its message is made unless the name is taken, which then was reached before. */
    method DefineRoot(name: string, schema: Schema)
      requires Valid() && Finished() && InRegistry(all, schema)
      modifies this
      ensures Valid() && Finished() && roots == old(roots) + [Ask(name, schema)]
      ensures forall n :: n in old(made) ==> n in made && made[n] == old(made)[n]
      ensures name in made
      ensures made[name] == schema || exists s :: Reached(decode, all, old(roots), Ask(name, s))
    {
      if name in messages {
        TakenIsReached(decode, all, roots, messages, made, name);
        AddRoot(Ask(name, schema));
      } else {
        AddRoot(Ask(name, schema));
        var def := JsonSchemaToMessage(name, schema);
        FinishedAfter(old(messages), old(made), messages, made, name, def, schema);
        SetMessage(name, def, schema);
      }
    }

    /** `jsonSchemaToMessage`: the message follows its schema, and what its fields ask for gets defined on the way. */
    method JsonSchemaToMessage(name: string, schema: Schema) returns (def: Definition)
      requires Valid() && InRegistry(all, schema) && Reached(decode, all, roots, Ask(name, schema))
      modifies this
      ensures Valid() && roots == old(roots) && Grown(old(messages), old(made), messages, made)
      ensures MessageOk(decode, all, messages.Keys, name, schema, def)
      decreases |Universe(decode, all) - messages.Keys|, schema, 1
    {
      var fields: seq<Field> := [];
      if schema.hasProperties {
        ghost var before, madeBefore := messages, made;
        for i := 0 to |schema.properties|
          invariant Valid() && roots == old(roots) && Grown(before, madeBefore, messages, made)
          invariant |fields| == i && FieldsOk(decode, all, messages.Keys, name, schema, fields)
        {
          ghost var mid, madeMid := messages, made;
          Shrinks(Universe(decode, all), before.Keys, mid.Keys);
          var f := JsonField(name, schema, i);
          GrownTwice(before, madeBefore, mid, madeMid, messages, made);
          OneMoreField(decode, all, mid.Keys, messages.Keys, name, schema, fields, f);
          fields := fields + [f];
        }
      }
      def := Message(name, fields);
    }

    /** One turn of its loop over the properties. */
    method JsonField(name: string, schema: Schema, i: nat) returns (f: Field)
      requires Valid() && InRegistry(all, schema) && schema.hasProperties && i < |schema.properties|
      requires Reached(decode, all, roots, Ask(name, schema))
      modifies this
      ensures Valid() && roots == old(roots) && Grown(old(messages), old(made), messages, made)
      ensures FieldOk(decode, all, messages.Keys, name, schema, i, f)
      decreases |Universe(decode, all) - messages.Keys|, schema, 0
    {
      var prop := schema.properties[i];
      assert Within(prop.schema, prop.schema);
      InnerInRegistry(all, prop.schema, schema);
      FieldAsksReached(decode, all, roots, Ask(name, schema), i);
      FieldAsksThese(decode, all, prop, name);
      ghost var mid, madeMid := messages, made;
      var fieldType := JsonTypeToProto(prop.name, prop.schema, name);
      if prop.schema.typ == "array" {
        mid, madeMid := messages, made;
        Shrinks(Universe(decode, all), old(messages).Keys, messages.Keys);
        fieldType := JsonItemsToProto(prop.name, prop.schema, name);
        GrownTwice(old(messages), old(made), mid, madeMid, messages, made);
      }
      TypeIsDenoted(decode, all, mid.Keys, prop.name, FieldSchema(prop), name);
      FieldIsAnswered(decode, all, prop, name, messages.Keys);
      f := Field(RuleOf(schema, prop), fieldType, prop.name, i + 1);
    }

    /** `jsonTypeToProto` on the items of a schema, or on `{}` when it has none. */
    method JsonItemsToProto(fieldName: string, schema: Schema, parentName: string) returns (t: string)
      requires Valid() && InRegistry(all, schema)
      requires MayAsk(AskOf(decode, all, fieldName, ItemsOf(schema), parentName))
      modifies this
      ensures Valid() && roots == old(roots) && Grown(old(messages), old(made), messages, made)
      ensures t == TypeOf(decode, all, old(messages).Keys, fieldName, ItemsOf(schema), parentName)
      ensures Known(decode, all, messages.Keys, t)
      ensures IsAnswered(AskOf(decode, all, fieldName, ItemsOf(schema), parentName))
      ensures TakenOrMade(old(messages), AskOf(decode, all, fieldName, ItemsOf(schema), parentName))
      decreases |Universe(decode, all) - messages.Keys|, schema, 0
    {
      if schema.items.Some? {
        assert Within(schema.items.value, schema.items.value);
        InnerInRegistry(all, schema.items.value, schema);
        t := JsonTypeToProto(fieldName, schema.items.value, parentName);
      } else {
        t := STRUCT;
      }
    }

    ghost predicate MayAsk(a: Option<Ask>)
      reads this
    {
      a.Some? ==> Reached(decode, all, roots, a.value)
    }

    ghost predicate IsAnswered(a: Option<Ask>)
      reads this
    {
      a.Some? ==> a.value.name in messages
    }

    /** `jsonTypeToProto`: the type the schema denotes; what it asks for is defined, from the schema asked for unless
        the name was taken. */
    method JsonTypeToProto(fieldName: string, schema: Schema, parentName: string) returns (t: string)
      requires Valid() && InRegistry(all, schema)
      requires MayAsk(AskOf(decode, all, fieldName, schema, parentName))
      modifies this
      ensures Valid() && roots == old(roots) && Grown(old(messages), old(made), messages, made)
      ensures t == TypeOf(decode, all, old(messages).Keys, fieldName, schema, parentName)
      ensures Known(decode, all, messages.Keys, t)
      ensures IsAnswered(AskOf(decode, all, fieldName, schema, parentName))
      ensures TakenOrMade(old(messages), AskOf(decode, all, fieldName, schema, parentName))
      decreases |Universe(decode, all) - messages.Keys|, schema, 2
    {
      if schema.ref != "" {
        t := RefToProto(schema);
        return;
      }
      var scalar := ScalarType(schema.typ, schema.format);
      if scalar.Some? { return scalar.value; }
      if schema.typ == "object" {
        if schema.hasProperties {
          var nestedName := parentName + Capitalize(fieldName);
          if nestedName !in messages {
            var def := JsonSchemaToMessage(nestedName, schema);
            SetMessage(nestedName, def, schema);
          }
          return nestedName;
        }
        return STRUCT;
      }
      if schema.typ == "array" {
        t := JsonItemsToProto(fieldName, schema, parentName);
        return;
      }
      return STRUCT;
    }

    ghost predicate TakenOrMade(before: map<string, Definition>, a: Option<Ask>)
      reads this
    {
      a.Some? && a.value.name !in before ==> a.value.name in made && made[a.value.name] == a.value.schema
    }

    /** The `$ref` branch: the placeholder is set before the target is walked. */
    method RefToProto(schema: Schema) returns (t: string)
      requires Valid() && InRegistry(all, schema) && schema.ref != ""
      requires MayAsk(AskOf(decode, all, "", schema, ""))
      modifies this
      ensures Valid() && roots == old(roots) && Grown(old(messages), old(made), messages, made)
      ensures t == TypeOf(decode, all, old(messages).Keys, "", schema, "")
      ensures Known(decode, all, messages.Keys, t)
      ensures IsAnswered(AskOf(decode, all, "", schema, ""))
      ensures TakenOrMade(old(messages), AskOf(decode, all, "", schema, ""))
      decreases |Universe(decode, all) - messages.Keys|, schema, 1
    {
      var isComponentsRef := COMPONENTS <= schema.ref;
      var rawRefName := RawName(schema.ref);
      var msgName := MessageName(decode, rawRefName);
      var target := Target(decode, all, rawRefName);
      if msgName !in messages && target.Some? {
        Define(schema, msgName, target.value);
      }
      if !isComponentsRef && target.None? && msgName !in messages {
        return STRUCT;
      }
      t := msgName;
    }

    /** A name that is free gets its placeholder, and in the end the definition of the reference's own target. */
    method Define(schema: Schema, msgName: string, target: Schema)
      requires Valid() && InRegistry(all, schema) && schema.ref != ""
      requires msgName == MessageName(decode, RawName(schema.ref)) && msgName !in messages
      requires Target(decode, all, RawName(schema.ref)) == Some(target)
      requires Reached(decode, all, roots, Ask(msgName, target))
      modifies this
      ensures Valid() && roots == old(roots) && Grown(old(messages), old(made), messages, made)
      ensures msgName in messages && msgName in made && made[msgName] == target
      decreases |Universe(decode, all) - messages.Keys|, schema, 0
    {
      RefInUniverse(decode, all, schema);
      TargetInRegistry(decode, all, RawName(schema.ref));
      SetPlaceholder(msgName);
      Shrinks(Universe(decode, all), old(messages).Keys, messages.Keys);
      var def := JsonSchemaToMessage(msgName, target);
      PlaceholderFilled(old(messages), old(made), msgName, messages, made, def, target);
      SetMessage(msgName, def, target);
    }
  }

  lemma PlaceholderFilled(before: map<string, Definition>, madeBefore: map<string, Schema>, name: string,
                          mid: map<string, Definition>, madeMid: map<string, Schema>, def: Definition, from: Schema)
    requires name !in before && def.Message? && Grown(before[name := Placeholder], madeBefore, mid, madeMid)
    ensures Grown(before, madeBefore, mid[name := def], madeMid[name := from])
  {
    var hole := before[name := Placeholder];
    forall n | n in before ensures mid[n] == before[n] && n != name {
      assert n in hole && hole[n] == before[n];
    }
  }

  lemma FieldAsksReached(decode: string -> string, all: Registry, roots: seq<Ask>, a: Ask, i: nat)
    requires Reached(decode, all, roots, a) && i < |PropertiesOf(a.schema)|
    ensures forall b :: b in FieldAsks(decode, all, PropertiesOf(a.schema)[i], a.name) ==>
              Reached(decode, all, roots, b)
  {
    forall b | b in FieldAsks(decode, all, PropertiesOf(a.schema)[i], a.name) ensures Reached(decode, all, roots, b) {
      assert Asks(decode, all, a, b);
      NextReached(roots, AskRelation(decode, all), a, b);
    }
  }

  lemma TargetInRegistry(decode: string -> string, all: Registry, raw: string)
    requires Target(decode, all, raw).Some?
    ensures InRegistry(all, Target(decode, all, raw).value)
  {
    var k := if raw in all then raw else decode(raw);
    assert Within(all[k], all[k]);
  }

  // ---- generateProto ----

  /** A registered operation; "" is an absent input or output. */
  datatype Operation = Operation(id: string, input: string, output: string, hidden: bool, streaming: string)

  datatype Rpc = Rpc(input: string, output: string, clientStreams: bool, serverStreams: bool)

  predicate EndsWithMark(ref: string) {
    ref != "" && ref[|ref| - 1] == '?'
  }

  function BaseRef(ref: string): (r: string) {
    if EndsWithMark(ref) then ref[..|ref| - 1] else ref
  }

  /** `resolveSchemaRef`: the schema itself, or the one without the `?` of the "ignoreRequired" variant. */
  function ResolveSchemaRef(schemas: Registry, ref: string): (r: Option<string>)
    ensures r.Some? ==> r.value in schemas
  {
    if ref == "" || ref == "void" then None
    else if ref in schemas then Some(ref)
    else if EndsWithMark(ref) && BaseRef(ref) in schemas then Some(BaseRef(ref))
    else None
  }

  function InputType(decode: string -> string, schemas: Registry, op: Operation): (r: string) {
    var ref := ResolveSchemaRef(schemas, op.input);
    if ref.Some? then MessageName(decode, ref.value) else EMPTY
  }

  /** The output variant does not strip a `?`. */
  function OutputType(decode: string -> string, schemas: Registry, op: Operation): (r: string) {
    if op.output != "" && op.output != "void" && op.output in schemas then MessageName(decode, op.output) else EMPTY
  }

  function RpcOf(decode: string -> string, schemas: Registry, op: Operation): (r: Rpc) {
    Rpc(InputType(decode, schemas, op), OutputType(decode, schemas, op),
        op.streaming == "client" || op.streaming == "bidi", op.streaming == "server" || op.streaming == "bidi")
  }

  /** What an rpc line says of its operation. The `?` of the variant that ignores required fields is read on inputs
      only: on an output it leads to Empty. */
  lemma RpcMeans(decode: string -> string, schemas: Registry, op: Operation)
    ensures var r := RpcOf(decode, schemas, op);
            && (r.clientStreams && r.serverStreams <==> op.streaming == "bidi")
            && (r.clientStreams && !r.serverStreams <==> op.streaming == "client")
            && (!r.clientStreams && r.serverStreams <==> op.streaming == "server")
    ensures forall ref :: ref in schemas && ref !in {"", "void"} ==>
              && (op.input in {ref, ref + "?"} && (op.input in schemas ==> op.input == ref) ==>
                    RpcOf(decode, schemas, op).input == MessageName(decode, ref))
              && (op.output == ref ==> RpcOf(decode, schemas, op).output == MessageName(decode, ref))
              && (op.output == ref + "?" && op.output !in schemas ==>
                    RpcOf(decode, schemas, op).output == "google.protobuf.Empty")
  {
    forall ref: string | ref in schemas ensures BaseRef(ref + "?") == ref && EndsWithMark(ref + "?") {
      assert (ref + "?")[..|ref|] == ref;
    }
    var v := "void";
    assert v[|v| - 1] == 'd';
  }

  function Visible(ops: seq<Operation>): (r: seq<Operation>)
    ensures forall op :: op in r <==> op in ops && !op.hidden
    ensures |r| <= |ops|
  {
    if ops == [] then [] else
      var before := Visible(ops[..|ops| - 1]);
      if ops[|ops| - 1].hidden then before else before + [ops[|ops| - 1]]
  }

  /** An operation stays or goes by itself, and those that stay keep their order. */
  lemma {:induction false} VisibleJoins(a: seq<Operation>, b: seq<Operation>)
    ensures Visible(a + b) == Visible(a) + Visible(b)
    decreases |b|
  {
    if b == [] {
      assert a + b == a && Visible(a) + [] == Visible(a);
    } else {
      var last := |b| - 1;
      assert (a + b)[..|a + b| - 1] == a + b[..last];
      VisibleJoins(a, b[..last]);
    }
  }

  lemma VisibleOne(op: Operation)
    ensures Visible([op]) == if op.hidden then [] else [op]
  {
    assert [op][..0] == [];
  }

  /** Local definitions do not replace a registered schema. */
  function Hoist(all: Registry, defs: seq<Property>): (r: Registry)
    ensures all.Keys <= r.Keys && forall k :: k in all ==> r[k] == all[k]
    ensures forall i :: 0 <= i < |defs| ==> defs[i].name in r
    decreases |defs|
  {
    if defs == [] then all else
      var d := defs[0];
      Hoist(if d.name in all then all else all[d.name := d.schema], defs[1..])
  }

  predicate Extends(schemas: Registry, enriched: Registry) {
    forall k :: k in schemas ==> k in enriched && enriched[k] == schemas[k]
  }

  /** The inputs and outputs of the visible operations, in order. */
  function Uses(ops: seq<Operation>): (uses: seq<string>) {
    if ops == [] then [] else
      var before, op := Uses(ops[..|ops| - 1]), ops[|ops| - 1];
      if op.hidden then before else before + [op.input, op.output]
  }

  /** The registry after folding in the local definitions of the schemas in use. */
  function EnrichedBy(schemas: Registry, uses: seq<string>): (enriched: Registry) {
    if uses == [] then schemas else
      var before := EnrichedBy(schemas, uses[..|uses| - 1]);
      Fold(before, uses[|uses| - 1])
  }

  predicate Used(before: Registry, ref: string) {
    ref !in {"", "void"} && BaseRef(ref) in before
  }

  function Fold(before: Registry, ref: string): (enriched: Registry) {
    if Used(before, ref) then Hoist(before, before[BaseRef(ref)].definitions) else before
  }

  function FirstDefinition(defs: seq<Property>, k: string): (s: Option<Schema>) {
    if defs == [] then None else if defs[0].name == k then Some(defs[0].schema) else FirstDefinition(defs[1..], k)
  }

  lemma {:induction false} HoistHolds(all: Registry, defs: seq<Property>, k: string)
    ensures k in all ==> k in Hoist(all, defs) && Hoist(all, defs)[k] == all[k]
    ensures k !in all ==> (k in Hoist(all, defs) <==> FirstDefinition(defs, k).Some?)
    ensures k !in all && k in Hoist(all, defs) ==> Hoist(all, defs)[k] == FirstDefinition(defs, k).value
    decreases |defs|
  {
    if defs != [] {
      var d := defs[0];
      HoistHolds(if d.name in all then all else all[d.name := d.schema], defs[1..], k);
    }
  }

  lemma {:induction false} EnrichedExtends(schemas: Registry, uses: seq<string>)
    ensures Extends(schemas, EnrichedBy(schemas, uses))
  {
    if uses != [] { EnrichedExtends(schemas, uses[..|uses| - 1]); }
  }

  /** What a reference adds under a name, if its schema is known by then. */
  function LocalDefinition(before: Registry, ref: string, k: string): (s: Option<Schema>) {
    if Used(before, ref) then FirstDefinition(before[BaseRef(ref)].definitions, k) else None
  }

  function DefinitionAt(schemas: Registry, uses: seq<string>, k: string, j: nat): (s: Option<Schema>)
    requires j < |uses|
  {
    LocalDefinition(EnrichedBy(schemas, uses[..j]), uses[j], k)
  }

  lemma FoldHolds(before: Registry, ref: string, k: string)
    ensures k in before ==> k in Fold(before, ref) && Fold(before, ref)[k] == before[k]
    ensures k !in before ==> (k in Fold(before, ref) <==> LocalDefinition(before, ref, k).Some?)
    ensures k !in before && k in Fold(before, ref) ==> Fold(before, ref)[k] == LocalDefinition(before, ref, k).value
  {
    if Used(before, ref) { HoistHolds(before, before[BaseRef(ref)].definitions, k); }
  }

  /** Registered schemas stay; a name beside them is known exactly when a schema in use defines it locally, and then
      has the definition of the first use that does. */
  lemma {:induction false} EnrichedHolds(schemas: Registry, uses: seq<string>, k: string) returns (j: nat)
    ensures k in schemas ==> k in EnrichedBy(schemas, uses) && EnrichedBy(schemas, uses)[k] == schemas[k]
    ensures k !in schemas && k in EnrichedBy(schemas, uses) ==>
              && j < |uses| && DefinitionAt(schemas, uses, k, j) == Some(EnrichedBy(schemas, uses)[k])
              && forall i :: 0 <= i < j ==> DefinitionAt(schemas, uses, k, i).None?
    ensures k !in EnrichedBy(schemas, uses) ==> forall i :: 0 <= i < |uses| ==> DefinitionAt(schemas, uses, k, i).None?
  {
    j := 0;
    if uses != [] {
      var last := |uses| - 1;
      var before := EnrichedBy(schemas, uses[..last]);
      j := EnrichedHolds(schemas, uses[..last], k);
      forall i | 0 <= i < last
        ensures DefinitionAt(schemas, uses, k, i) == DefinitionAt(schemas, uses[..last], k, i)
      {
        assert uses[..last][..i] == uses[..i];
      }
      FoldHolds(before, uses[last], k);
      if k !in before { j := last; }
    }
  }

  lemma {:induction false} FirstIsFound(defs: seq<Property>, i: nat)
    requires i < |defs|
    ensures FirstDefinition(defs, defs[i].name).Some?
  {
    if defs[0].name != defs[i].name { FirstIsFound(defs[1..], i - 1); }
  }

  /** Whatever a schema in use, by its name or its `?` variant, defines locally is known to the walk. */
  lemma {:induction false} LocalsAreKnown(schemas: Registry, uses: seq<string>, ref: string, j: nat, i: nat)
    requires ref in schemas && ref !in {"", "void"} && !EndsWithMark(ref)
    requires j < |uses| && uses[j] in {ref, ref + "?"} && i < |schemas[ref].definitions|
    ensures schemas[ref].definitions[i].name in EnrichedBy(schemas, uses)
  {
    var last := |uses| - 1;
    var before, k := EnrichedBy(schemas, uses[..last]), schemas[ref].definitions[i].name;
    EnrichedExtends(schemas, uses[..last]);
    FoldHolds(before, uses[last], k);
    if j < last {
      LocalsAreKnown(schemas, uses[..last], ref, j, i);
    } else {
      assert (ref + "?")[..|ref|] == ref;
      assert BaseRef(uses[j]) == ref && before[ref] == schemas[ref];
      FirstIsFound(schemas[ref].definitions, i);
      var v := "void";
      assert v[|v| - 1] == 'd' && uses[j] !in {"", "void"};
    }
  }

  lemma OneMoreUse(schemas: Registry, uses: seq<string>, ref: string)
    ensures EnrichedBy(schemas, uses + [ref]) == Fold(EnrichedBy(schemas, uses), ref)
  {
    assert (uses + [ref])[..|uses + [ref]| - 1] == uses;
  }

  lemma OneMoreOperation(schemas: Registry, ops: seq<Operation>, j: nat)
    requires j < |ops|
    ensures var before, op := EnrichedBy(schemas, Uses(ops[..j])), ops[j];
            EnrichedBy(schemas, Uses(ops[..j + 1]))
            == if op.hidden then before else Fold(Fold(before, op.input), op.output)
  {
    var uses, op := Uses(ops[..j]), ops[j];
    assert ops[..j + 1][..j] == ops[..j];
    OneMoreUse(schemas, uses, op.input);
    OneMoreUse(schemas, uses + [op.input], op.output);
    assert uses + [op.input] + [op.output] == uses + [op.input, op.output];
  }

  /** The registry the walk consults. */
  method Enrich(ops: seq<Operation>, schemas: Registry) returns (enriched: Registry)
    ensures enriched == EnrichedBy(schemas, Uses(ops))
  {
    enriched := schemas;
    for j := 0 to |ops|
      invariant enriched == EnrichedBy(schemas, Uses(ops[..j]))
    {
      OneMoreOperation(schemas, ops, j);
      if ops[j].hidden { continue; }
      if ops[j].input != "" && ops[j].input != "void" && BaseRef(ops[j].input) in enriched {
        enriched := Hoist(enriched, enriched[BaseRef(ops[j].input)].definitions);
      }
      if ops[j].output != "" && ops[j].output != "void" && BaseRef(ops[j].output) in enriched {
        enriched := Hoist(enriched, enriched[BaseRef(ops[j].output)].definitions);
      }
    }
    assert ops[..|ops|] == ops;
  }

  /** The ask of an operation's input or output. */
  function RootOf(decode: string -> string, schemas: Registry, ref: string): (a: Option<Ask>) {
    var r := ResolveSchemaRef(schemas, ref);
    if r.Some? then Some(Ask(MessageName(decode, r.value), schemas[r.value])) else None
  }

  function AsSeq(a: Option<Ask>): (asks: seq<Ask>) {
    if a.Some? then [a.value] else []
  }

  /** What the visible operations ask for, in the order of the loop. */
  function RootsOf(decode: string -> string, schemas: Registry, ops: seq<Operation>): (roots: seq<Ask>)
    ensures forall op :: op in ops && !op.hidden ==>
              && (forall a :: a in AsSeq(RootOf(decode, schemas, op.input)) ==> a in roots)
              && (forall a :: a in AsSeq(RootOf(decode, schemas, op.output)) ==> a in roots)
  {
    if ops == [] then [] else
      var before, op := RootsOf(decode, schemas, ops[..|ops| - 1]), ops[|ops| - 1];
      if op.hidden then before
      else before + AsSeq(RootOf(decode, schemas, op.input)) + AsSeq(RootOf(decode, schemas, op.output))
  }

  /** Hidden operations ask for nothing and use nothing. */
  lemma {:induction false} HiddenAskNothing(decode: string -> string, schemas: Registry, ops: seq<Operation>)
    ensures RootsOf(decode, schemas, ops) == RootsOf(decode, schemas, Visible(ops))
    ensures Uses(ops) == Uses(Visible(ops))
  {
    if ops != [] {
      var last := |ops| - 1;
      HiddenAskNothing(decode, schemas, ops[..last]);
      if !ops[last].hidden {
        var before := Visible(ops[..last]);
        assert (before + [ops[last]])[..|before + [ops[last]]| - 1] == before;
      }
    }
  }

  /** And a visible one asks for the schemas of its input and output. */
  lemma VisibleAsks(decode: string -> string, schemas: Registry, ops: seq<Operation>, op: Operation, ref: string)
    requires op in ops && !op.hidden && (op.input == ref || op.output == ref)
    requires ref in schemas && ref !in {"", "void"}
    ensures Ask(MessageName(decode, ref), schemas[ref]) in RootsOf(decode, schemas, ops)
  {
    assert RootOf(decode, schemas, ref) == Some(Ask(MessageName(decode, ref), schemas[ref]));
    assert Ask(MessageName(decode, ref), schemas[ref]) in AsSeq(RootOf(decode, schemas, ref));
  }

  /** The first operation to ask for a name settles it: if nothing reached from the earlier ones asks for the name, it
      is made from the schema of this one. */
  ghost predicate Settled(decode: string -> string, all: Registry, roots: seq<Ask>, made: map<string, Schema>) {
    forall j :: 0 <= j < |roots| ==> roots[j].name in made && SettledAt(decode, all, roots, made, j)
  }

  ghost predicate SettledAt(decode: string -> string, all: Registry, roots: seq<Ask>, made: map<string, Schema>, j: nat)
    requires j < |roots| && roots[j].name in made
  {
    || made[roots[j].name] == roots[j].schema
    || exists s :: Reached(decode, all, roots[..j], Ask(roots[j].name, s))
  }

  lemma SettledMore(decode: string -> string, all: Registry, roots: seq<Ask>, a: Ask, made: map<string, Schema>,
                    made': map<string, Schema>)
    requires Settled(decode, all, roots, made) && a.name in made'
    requires forall n :: n in made ==> n in made' && made'[n] == made[n]
    requires made'[a.name] == a.schema || exists s :: Reached(decode, all, roots, Ask(a.name, s))
    ensures Settled(decode, all, roots + [a], made')
  {
    var more := roots + [a];
    forall j | 0 <= j < |more| ensures more[j].name in made' && SettledAt(decode, all, more, made', j) {
      assert more[..j] == if j < |roots| then roots[..j] else roots;
      if j < |roots| { assert SettledAt(decode, all, roots, made, j); }
    }
  }

  /** One schema reference of an operation. */
  method DefineRef(gen: Generator, schemas: Registry, ref: string)
    requires gen.Valid() && gen.Finished()
    requires Extends(schemas, gen.all) && Settled(gen.decode, gen.all, gen.roots, gen.made)
    modifies gen
    ensures gen.Valid() && gen.Finished()
    ensures gen.roots == old(gen.roots) + AsSeq(RootOf(gen.decode, schemas, ref))
    ensures Settled(gen.decode, gen.all, gen.roots, gen.made)
  {
    var r := ResolveSchemaRef(schemas, ref);
    if r.Some? {
      var msgName := MessageName(gen.decode, r.value);
      ghost var roots, made := gen.roots, gen.made;
      InnerOfRegistry(gen.all, r.value);
      gen.DefineRoot(msgName, gen.all[r.value]);
      SettledMore(gen.decode, gen.all, roots, Ask(msgName, schemas[r.value]), made, gen.made);
    }
  }

  lemma InnerOfRegistry(all: Registry, k: string)
    requires k in all
    ensures InRegistry(all, all[k])
  {
    assert Within(all[k], all[k]);
  }

  /** What the walk leaves in the map: definitions only, each made from a schema that was reached under its name and
      following it field by field, with all that its fields ask for; and the operations' own schemas, the first to ask
      for a name first. */
  ghost predicate FileOk(decode: string -> string, all: Registry, roots: seq<Ask>, order: seq<string>,
                         messages: map<string, Definition>, made: map<string, Schema>)
  {
    && (forall i, j :: 0 <= i < j < |order| ==> order[i] != order[j])
    && (forall n :: n in order <==> n in messages)
    && Follows(decode, all, messages, made)
    && (forall n :: n in messages ==> Reached(decode, all, roots, Ask(n, made[n])))
    && Settled(decode, all, roots, made)
  }

  /** Each message follows the schema it was made from. */
  ghost predicate Follows(decode: string -> string, all: Registry, messages: map<string, Definition>,
                          made: map<string, Schema>)
  {
    && made.Keys == messages.Keys
    && (forall n :: n in messages ==> MessageOk(decode, all, messages.Keys, n, made[n], messages[n]))
  }

  /** The loop that generates the messages of all referenced schemas. */
  method DefineAll(gen: Generator, ops: seq<Operation>, schemas: Registry)
    requires gen.Valid() && gen.messages == map[] && gen.roots == [] && Extends(schemas, gen.all)
    modifies gen
    ensures gen.roots == RootsOf(gen.decode, schemas, ops)
    ensures FileOk(gen.decode, gen.all, gen.roots, gen.order, gen.messages, gen.made)
  {
    for j := 0 to |ops|
      invariant gen.Valid() && gen.Finished()
      invariant gen.roots == RootsOf(gen.decode, schemas, ops[..j])
      invariant Settled(gen.decode, gen.all, gen.roots, gen.made)
    {
      assert ops[..j + 1][..j] == ops[..j];
      if ops[j].hidden { continue; }
      DefineRef(gen, schemas, ops[j].input);
      DefineRef(gen, schemas, ops[j].output);
    }
    assert ops[..|ops|] == ops;
    forall n | n in gen.messages
      ensures && n in gen.made && Reached(gen.decode, gen.all, gen.roots, Ask(n, gen.made[n]))
              && MessageOk(gen.decode, gen.all, gen.messages.Keys, n, gen.made[n], gen.messages[n])
    {
      assert IsMade(gen.decode, gen.all, gen.roots, gen.messages.Keys, n, gen.made[n], gen.messages[n]);
    }
  }

  /** The rpc lines of the operations that are not hidden. */
  method RpcLines(decode: string -> string, ops: seq<Operation>, schemas: Registry) returns (rpcs: seq<Rpc>)
    ensures |rpcs| == |Visible(ops)|
    ensures forall i :: 0 <= i < |rpcs| ==> rpcs[i] == RpcOf(decode, schemas, Visible(ops)[i])
  {
    rpcs := [];
    for j := 0 to |ops|
      invariant |rpcs| == |Visible(ops[..j])|
      invariant forall i :: 0 <= i < |rpcs| ==> rpcs[i] == RpcOf(decode, schemas, Visible(ops[..j])[i])
    {
      assert ops[..j + 1][..j] == ops[..j];
      if ops[j].hidden { continue; }
      rpcs := rpcs + [RpcOf(decode, schemas, ops[j])];
    }
    assert ops[..|ops|] == ops;
  }

  /** `generateProto` on the messages and the rpc lines: it terminates on every finite registry, cyclic references
      included, and leaves a file as `FileOk` says; every rpc type is Empty or the defined message that its operation
      asks for. */
  method GenerateProto(decode: string -> string, ops: seq<Operation>, schemas: Registry)
    returns (enriched: Registry, order: seq<string>, messages: map<string, Definition>, rpcs: seq<Rpc>,
             ghost made: map<string, Schema>)
    ensures enriched == EnrichedBy(schemas, Uses(ops))
    ensures FileOk(decode, enriched, RootsOf(decode, schemas, ops), order, messages, made)
    ensures |rpcs| == |Visible(ops)|
    ensures forall i :: 0 <= i < |rpcs| ==>
      && rpcs[i] == RpcOf(decode, schemas, Visible(ops)[i])
      && (rpcs[i].input == EMPTY || rpcs[i].input in messages)
      && (rpcs[i].output == EMPTY || rpcs[i].output in messages)
  {
    enriched := Enrich(ops, schemas);
    EnrichedExtends(schemas, Uses(ops));
    var gen := new Generator(decode, enriched);
    DefineAll(gen, ops, schemas);
    order, messages, made := gen.order, gen.messages, gen.made;
    rpcs := RpcLines(decode, ops, schemas);
    forall i | 0 <= i < |rpcs|
      ensures (rpcs[i].input == EMPTY || rpcs[i].input in messages)
           && (rpcs[i].output == EMPTY || rpcs[i].output in messages)
    {
      assert Visible(ops)[i] in Visible(ops);
      RpcIsDefined(decode, ops, schemas, Visible(ops)[i], gen.roots, made);
    }
  }

  lemma RpcIsDefined(decode: string -> string, ops: seq<Operation>, schemas: Registry, op: Operation, roots: seq<Ask>,
                     made: map<string, Schema>)
    requires op in ops && !op.hidden && roots == RootsOf(decode, schemas, ops)
    requires forall j :: 0 <= j < |roots| ==> roots[j].name in made
    ensures InputType(decode, schemas, op) == EMPTY || InputType(decode, schemas, op) in made
    ensures OutputType(decode, schemas, op) == EMPTY || OutputType(decode, schemas, op) in made
  {
    var input, output := RootOf(decode, schemas, op.input), RootOf(decode, schemas, op.output);
    if input.Some? { assert input.value in AsSeq(input); }
    if output.Some? { assert output.value in AsSeq(output); }
  }

  // ---- is every type the message of its own schema? ----

  /** No two schemas are reached under one name. */
  ghost predicate NoClash(decode: string -> string, all: Registry, roots: seq<Ask>) {
    forall a, b :: Reached(decode, all, roots, a) && Reached(decode, all, roots, b) && a.name == b.name ==>
                     a.schema == b.schema
  }

  /** Every schema that an operation or a reached field asks for is followed by the message of its name. */
  ghost predicate AllFollowed(decode: string -> string, all: Registry, roots: seq<Ask>,
                              messages: map<string, Definition>)
  {
    forall a :: Reached(decode, all, roots, a) ==>
      a.name in messages && MessageOk(decode, all, messages.Keys, a.name, a.schema, messages[a.name])
  }

  /** The names hold those of the operations' schemas and of all that reached ones among them ask for. */
  ghost predicate ClosedNames(decode: string -> string, all: Registry, roots: seq<Ask>, names: set<string>) {
    && (forall a :: a in roots ==> a.name in names)
    && (forall a, b {:trigger Asks(decode, all, a, b)} ::
          Reached(decode, all, roots, a) && a.name in names && Asks(decode, all, a, b) ==> b.name in names)
  }

  lemma ReachedStaysInside(decode: string -> string, all: Registry, roots: seq<Ask>, names: set<string>, a: Ask)
    requires ClosedNames(decode, all, roots, names) && Reached(decode, all, roots, a)
    ensures a.name in names
  {
    var next, inside := AskRelation(decode, all), (x: Ask) => x.name in names;
    var steps: nat :| ReachedIn(roots, next, a, steps);
    forall x, y | ReachedFrom(roots, next, x) && inside(x) && next(x, y) ensures inside(y) {
      assert Asks(decode, all, x, y);
    }
    HandedOn(roots, next, inside, a, steps);
  }

  lemma FileIsClosed(decode: string -> string, all: Registry, roots: seq<Ask>, order: seq<string>,
                     messages: map<string, Definition>, made: map<string, Schema>)
    requires FileOk(decode, all, roots, order, messages, made) && NoClash(decode, all, roots)
    ensures ClosedNames(decode, all, roots, messages.Keys)
  {
    forall a | a in roots ensures a.name in messages {
      RootIsDefined(decode, all, roots, made, a);
    }
    forall a, b | Reached(decode, all, roots, a) && a.name in messages && Asks(decode, all, a, b)
      ensures b.name in messages
    {
      assert Reached(decode, all, roots, Ask(a.name, made[a.name]));
      AskedIsDefined(decode, all, messages, a, b);
    }
  }

  lemma RootIsDefined(decode: string -> string, all: Registry, roots: seq<Ask>, made: map<string, Schema>, a: Ask)
    requires Settled(decode, all, roots, made) && a in roots
    ensures a.name in made
  {
    var j :| 0 <= j < |roots| && roots[j] == a;
    assert roots[j].name in made;
  }

  lemma AskedIsDefined(decode: string -> string, all: Registry, messages: map<string, Definition>, b: Ask, a: Ask)
    requires b.name in messages && MessageOk(decode, all, messages.Keys, b.name, b.schema, messages[b.name])
    requires Asks(decode, all, b, a)
    ensures a.name in messages
  {
    var i :| 0 <= i < |PropertiesOf(b.schema)| && a in FieldAsks(decode, all, PropertiesOf(b.schema)[i], b.name);
    assert FieldOk(decode, all, messages.Keys, b.name, b.schema, i, messages[b.name].fields[i]);
  }

  lemma OwnWithoutClash(decode: string -> string, all: Registry, roots: seq<Ask>, order: seq<string>,
                        messages: map<string, Definition>, made: map<string, Schema>, a: Ask)
    requires FileOk(decode, all, roots, order, messages, made) && NoClash(decode, all, roots)
    requires Reached(decode, all, roots, a)
    ensures a.name in made && made[a.name] == a.schema && a.name in messages
    ensures MessageOk(decode, all, messages.Keys, a.name, a.schema, messages[a.name])
  {
    FileIsClosed(decode, all, roots, order, messages, made);
    ReachedStaysInside(decode, all, roots, messages.Keys, a);
    assert Reached(decode, all, roots, Ask(a.name, made[a.name]));
  }

  /** Without a clash every message that an operation or a field asks for follows the schema asked for. */
  lemma NoClashFollowsSchemas(decode: string -> string, all: Registry, roots: seq<Ask>, order: seq<string>,
                              messages: map<string, Definition>, made: map<string, Schema>)
    requires FileOk(decode, all, roots, order, messages, made) && NoClash(decode, all, roots)
    ensures AllFollowed(decode, all, roots, messages)
    ensures forall a :: Reached(decode, all, roots, a) ==> a.name in made && made[a.name] == a.schema
  {
    forall a | Reached(decode, all, roots, a)
      ensures a.name in made && made[a.name] == a.schema
      ensures a.name in messages && MessageOk(decode, all, messages.Keys, a.name, a.schema, messages[a.name])
    {
      OwnWithoutClash(decode, all, roots, order, messages, made, a);
    }
  }

  // ---- exactly when every message follows all the schemas asked for under its name ----

  /** Every reference resolves. */
  ghost predicate Resolving(decode: string -> string, all: Registry) {
    forall s: Schema :: InRegistry(all, s) && s.ref != "" ==> Target(decode, all, RawName(s.ref)).Some?
  }

  /** No schema is both a reference and an array, which asks for the reference and has the type of the items. */
  ghost predicate RefsAlone(all: Registry) {
    forall s: Schema :: InRegistry(all, s) && s.ref != "" ==> s.typ != "array"
  }

  /** The names of messages, unlike those of scalars and of Struct, do not begin with a lower-case letter. */
  predicate IsTypeName(name: string) {
    name != "" && !IsLower(name[0])
  }

  lemma TypeNamesAreApart(t: string)
    requires IsTypeName(t)
    ensures t !in SCALARS && t != STRUCT
  {
  }

  lemma {:induction false} PascalIsUpper(s: string)
    ensures Pascal(s, true) != "" ==> !IsLower(Pascal(s, true)[0])
  {
    if s != "" && !IsWord(s[0]) { PascalIsUpper(s[1..]); }
  }

  lemma MessageNamesAreTypeNames(decode: string -> string, ref: string)
    ensures IsTypeName(MessageName(decode, ref))
  {
    PascalIsUpper(StripGenerics(AfterLastSlash(decode(ref))));
  }

  ghost predicate Proper(decode: string -> string, all: Registry, a: Ask) {
    IsTypeName(a.name) && InRegistry(all, a.schema)
  }

  /** What a field asks for is a message of the registry, and the field's type is its name. */
  lemma {:induction false} AskIsTyped(decode: string -> string, all: Registry, field: string, s: Schema, parent: string)
    requires Resolving(decode, all) && InRegistry(all, s) && IsTypeName(parent)
    ensures var a, t := AskOf(decode, all, field, s, parent), TypeOf(decode, all, {}, field, s, parent);
            if a.Some? then a.value.name == t && Proper(decode, all, a.value) else t in SCALARS || t == STRUCT
    decreases s
  {
    if s.ref != "" {
      MessageNamesAreTypeNames(decode, RawName(s.ref));
      TargetInRegistry(decode, all, RawName(s.ref));
    } else if s.items.Some? {
      ItemsInRegistry(all, s);
      AskIsTyped(decode, all, field, s.items.value, parent);
    }
  }

  lemma ItemsInRegistry(all: Registry, s: Schema)
    requires InRegistry(all, s)
    ensures InRegistry(all, ItemsOf(s))
  {
    if s.items.Some? {
      assert Within(s.items.value, s.items.value);
      InnerInRegistry(all, s.items.value, s);
    }
  }

  lemma FieldInRegistry(all: Registry, s: Schema, i: nat)
    requires InRegistry(all, s) && i < |PropertiesOf(s)|
    ensures var p := PropertiesOf(s)[i]; InRegistry(all, p.schema) && InRegistry(all, FieldSchema(p))
  {
    var p := PropertiesOf(s)[i];
    assert Within(p.schema, p.schema);
    InnerInRegistry(all, p.schema, s);
    ItemsInRegistry(all, p.schema);
  }

  /** Field i of a schema under a message name: what it asks for. */
  function FieldAsk(decode: string -> string, all: Registry, name: string, s: Schema, i: nat): (a: Option<Ask>)
    requires i < |PropertiesOf(s)|
  {
    var p := PropertiesOf(s)[i];
    AskOf(decode, all, p.name, FieldSchema(p), name)
  }

  function FieldType(decode: string -> string, all: Registry, name: string, s: Schema, i: nat): (t: string)
    requires i < |PropertiesOf(s)|
  {
    var p := PropertiesOf(s)[i];
    TypeOf(decode, all, {}, p.name, FieldSchema(p), name)
  }

  /** The second walk over an array asks for nothing else than the first. */
  lemma FieldAsksOnce(decode: string -> string, all: Registry, name: string, s: Schema, i: nat)
    requires RefsAlone(all) && InRegistry(all, s) && i < |PropertiesOf(s)|
    ensures FieldAsks(decode, all, PropertiesOf(s)[i], name) == AsSet(FieldAsk(decode, all, name, s, i))
  {
    FieldInRegistry(all, s, i);
  }

  /** What a field's asks and its type have to do with each other. */
  lemma FieldIsTyped(decode: string -> string, all: Registry, name: string, s: Schema, i: nat)
    requires Resolving(decode, all) && Proper(decode, all, Ask(name, s)) && i < |PropertiesOf(s)|
    ensures var a, t := FieldAsk(decode, all, name, s, i), FieldType(decode, all, name, s, i);
            if a.Some? then a.value.name == t && Proper(decode, all, a.value) else !IsTypeName(t)
  {
    FieldInRegistry(all, s, i);
    var p := PropertiesOf(s)[i];
    AskIsTyped(decode, all, p.name, FieldSchema(p), name);
    if IsTypeName(FieldType(decode, all, name, s, i)) { TypeNamesAreApart(FieldType(decode, all, name, s, i)); }
  }

  /** With all references resolved a schema denotes one type. */
  lemma {:induction false} OneType(decode: string -> string, all: Registry, names: set<string>, field: string,
                                   s: Schema, parent: string)
    requires Resolving(decode, all) && InRegistry(all, s)
    ensures TypeOf(decode, all, names, field, s, parent) == TypeOf(decode, all, {}, field, s, parent)
    decreases s
  {
    if s.ref == "" && s.items.Some? {
      ItemsInRegistry(all, s);
      OneType(decode, all, names, field, s.items.value, parent);
    }
  }

  lemma FieldDenotes(decode: string -> string, all: Registry, name: string, s: Schema, i: nat, t: string)
    requires Resolving(decode, all) && InRegistry(all, s) && i < |PropertiesOf(s)|
    ensures var p := PropertiesOf(s)[i];
            Denotes(decode, all, p.name, FieldSchema(p), name, t) <==> t == FieldType(decode, all, name, s, i)
  {
    var p := PropertiesOf(s)[i];
    FieldInRegistry(all, s, i);
    OneType(decode, all, {t}, p.name, FieldSchema(p), name);
  }

  lemma AskIsProper(decode: string -> string, all: Registry, a: Ask, b: Ask)
    requires Resolving(decode, all) && Proper(decode, all, a) && Asks(decode, all, a, b)
    ensures Proper(decode, all, b)
  {
    var i :| 0 <= i < |PropertiesOf(a.schema)| && b in FieldAsks(decode, all, PropertiesOf(a.schema)[i], a.name);
    var p := PropertiesOf(a.schema)[i];
    FieldInRegistry(all, a.schema, i);
    AskIsTyped(decode, all, p.name, p.schema, a.name);
    AskIsTyped(decode, all, p.name, FieldSchema(p), a.name);
  }

  lemma ReachedIsProper(decode: string -> string, all: Registry, roots: seq<Ask>, a: Ask)
    requires Resolving(decode, all) && forall r :: r in roots ==> Proper(decode, all, r)
    requires Reached(decode, all, roots, a)
    ensures Proper(decode, all, a)
  {
    var next, proper := AskRelation(decode, all), (x: Ask) => Proper(decode, all, x);
    var steps: nat :| ReachedIn(roots, next, a, steps);
    forall x, y | ReachedFrom(roots, next, x) && proper(x) && next(x, y) ensures proper(y) {
      AskIsProper(decode, all, x, y);
    }
    HandedOn(roots, next, proper, a, steps);
  }

  lemma {:induction false} RootsAreProper(decode: string -> string, schemas: Registry, all: Registry,
                                          ops: seq<Operation>)
    requires Extends(schemas, all)
    ensures forall a :: a in RootsOf(decode, schemas, ops) ==> Proper(decode, all, a)
  {
    if ops != [] {
      var last := |ops| - 1;
      RootsAreProper(decode, schemas, all, ops[..last]);
      RootIsProper(decode, schemas, all, ops[last].input);
      RootIsProper(decode, schemas, all, ops[last].output);
    }
  }

  lemma RootIsProper(decode: string -> string, schemas: Registry, all: Registry, ref: string)
    requires Extends(schemas, all)
    ensures forall a :: a in AsSeq(RootOf(decode, schemas, ref)) ==> Proper(decode, all, a)
  {
    var r := ResolveSchemaRef(schemas, ref);
    if r.Some? {
      MessageNamesAreTypeNames(decode, r.value);
      InnerOfRegistry(all, r.value);
    }
  }

  /** Under the message name, two schemas make the same fields: names, rules and types. */
  predicate SameLayout(decode: string -> string, all: Registry, name: string, s: Schema, t: Schema) {
    && |PropertiesOf(s)| == |PropertiesOf(t)|
    && forall i :: 0 <= i < |PropertiesOf(s)| ==> SameField(decode, all, name, s, t, i)
  }

  predicate SameField(decode: string -> string, all: Registry, name: string, s: Schema, t: Schema, i: nat)
    requires i < |PropertiesOf(s)| == |PropertiesOf(t)|
  {
    var p, q := PropertiesOf(s)[i], PropertiesOf(t)[i];
    && p.name == q.name && RuleOf(s, p) == RuleOf(t, q)
    && FieldType(decode, all, name, s, i) == FieldType(decode, all, name, t, i)
  }

  /** All schemas reached under one name make the same fields. */
  ghost predicate Agreeing(decode: string -> string, all: Registry, roots: seq<Ask>) {
    forall a, b :: Reached(decode, all, roots, a) && Reached(decode, all, roots, b) && a.name == b.name ==>
      SameLayout(decode, all, a.name, a.schema, b.schema)
  }

  /** A message that follows two schemas gives them the same fields. */
  lemma FollowsBoth(decode: string -> string, all: Registry, names: set<string>, n: string, s: Schema, t: Schema,
                    def: Definition)
    requires Resolving(decode, all) && InRegistry(all, s) && InRegistry(all, t)
    requires MessageOk(decode, all, names, n, s, def) && MessageOk(decode, all, names, n, t, def)
    ensures SameLayout(decode, all, n, s, t)
  {
    forall i | 0 <= i < |PropertiesOf(s)| ensures SameField(decode, all, n, s, t, i) {
      var f := def.fields[i];
      assert FieldOk(decode, all, names, n, s, i, f) && FieldOk(decode, all, names, n, t, i, f);
      FieldDenotes(decode, all, n, s, i, f.typ);
      FieldDenotes(decode, all, n, t, i, f.typ);
    }
  }

  /** A field asks for a message only if another schema's field of the same type asks for one of that name. */
  lemma SameAsk(decode: string -> string, all: Registry, n: string, s: Schema, t: Schema, i: nat)
    requires Resolving(decode, all) && Proper(decode, all, Ask(n, s)) && Proper(decode, all, Ask(n, t))
    requires i < |PropertiesOf(s)| == |PropertiesOf(t)| && SameField(decode, all, n, s, t, i)
    ensures var a, b := FieldAsk(decode, all, n, s, i), FieldAsk(decode, all, n, t, i);
            b.Some? ==> a.Some? && a.value.name == b.value.name
  {
    FieldIsTyped(decode, all, n, s, i);
    FieldIsTyped(decode, all, n, t, i);
  }

  /** A message that follows one schema follows every other with the same fields whose asks are defined too. */
  lemma FollowsOther(decode: string -> string, all: Registry, names: set<string>, n: string, s: Schema, t: Schema,
                     def: Definition)
    requires Resolving(decode, all) && InRegistry(all, s) && InRegistry(all, t)
    requires SameLayout(decode, all, n, s, t) && MessageOk(decode, all, names, n, s, def)
    requires forall a :: Asks(decode, all, Ask(n, t), a) ==> a.name in names
    ensures MessageOk(decode, all, names, n, t, def)
  {
    forall i | 0 <= i < |def.fields| ensures FieldOk(decode, all, names, n, t, i, def.fields[i]) {
      var f, q := def.fields[i], PropertiesOf(t)[i];
      assert FieldOk(decode, all, names, n, s, i, f) && SameField(decode, all, n, s, t, i);
      FieldDenotes(decode, all, n, s, i, f.typ);
      FieldDenotes(decode, all, n, t, i, f.typ);
      forall a | a in FieldAsks(decode, all, q, n) ensures a.name in names {
        assert Asks(decode, all, Ask(n, t), a);
      }
    }
  }

  /** All that is asked for has a message, be it made from another schema. */
  ghost predicate AllNamed(decode: string -> string, all: Registry, roots: seq<Ask>,
                           messages: map<string, Definition>)
  {
    forall a :: Reached(decode, all, roots, a) ==> a.name in messages
  }

  lemma AgreeingIsFollowed(decode: string -> string, all: Registry, roots: seq<Ask>,
                           messages: map<string, Definition>, made: map<string, Schema>, a: Ask)
    requires Resolving(decode, all) && Follows(decode, all, messages, made)
    requires forall n :: n in messages ==> Reached(decode, all, roots, Ask(n, made[n]))
    requires forall r :: r in roots ==> Proper(decode, all, r)
    requires Agreeing(decode, all, roots) && AllNamed(decode, all, roots, messages) && Reached(decode, all, roots, a)
    ensures MessageOk(decode, all, messages.Keys, a.name, a.schema, messages[a.name])
  {
    var own := Ask(a.name, made[a.name]);
    assert Reached(decode, all, roots, own);
    ReachedIsProper(decode, all, roots, a);
    ReachedIsProper(decode, all, roots, own);
    forall b | Asks(decode, all, a, b) ensures b.name in messages {
      NextReached(roots, AskRelation(decode, all), a, b);
    }
    FollowsOther(decode, all, messages.Keys, a.name, own.schema, a.schema, messages[a.name]);
  }

  /** In a registry whose references resolve: every message follows each of the schemas that are asked for under its
      name, directly or through other messages, exactly when those agree in their fields' names, rules and types, and
      all that is asked for has a message. */
  lemma FollowedExactlyWhen(decode: string -> string, ops: seq<Operation>, schemas: Registry, all: Registry,
                            order: seq<string>, messages: map<string, Definition>, made: map<string, Schema>)
    requires Extends(schemas, all) && Resolving(decode, all)
    requires FileOk(decode, all, RootsOf(decode, schemas, ops), order, messages, made)
    ensures var roots := RootsOf(decode, schemas, ops);
            AllFollowed(decode, all, roots, messages) <==>
              (Agreeing(decode, all, roots) && AllNamed(decode, all, roots, messages))
  {
    var roots := RootsOf(decode, schemas, ops);
    RootsAreProper(decode, schemas, all, ops);
    if AllFollowed(decode, all, roots, messages) {
      forall a, b | Reached(decode, all, roots, a) && Reached(decode, all, roots, b) && a.name == b.name
        ensures SameLayout(decode, all, a.name, a.schema, b.schema)
      {
        ReachedIsProper(decode, all, roots, a);
        ReachedIsProper(decode, all, roots, b);
        FollowsBoth(decode, all, messages.Keys, a.name, a.schema, b.schema, messages[a.name]);
      }
    }
    if Agreeing(decode, all, roots) && AllNamed(decode, all, roots, messages) {
      forall a | Reached(decode, all, roots, a)
        ensures MessageOk(decode, all, messages.Keys, a.name, a.schema, messages[a.name])
      {
        AgreeingIsFollowed(decode, all, roots, messages, made, a);
      }
    }
  }

  /** What a schema asks for is defined along with one that has the same fields. */
  lemma AskedAlongside(decode: string -> string, all: Registry, names: set<string>, n: string, s: Schema, t: Schema,
                       def: Definition, b: Ask)
    requires Resolving(decode, all) && RefsAlone(all)
    requires Proper(decode, all, Ask(n, s)) && Proper(decode, all, Ask(n, t))
    requires SameLayout(decode, all, n, s, t) && MessageOk(decode, all, names, n, s, def)
    requires Asks(decode, all, Ask(n, t), b)
    ensures b.name in names
  {
    var i :| 0 <= i < |PropertiesOf(t)| && b in FieldAsks(decode, all, PropertiesOf(t)[i], n);
    assert FieldOk(decode, all, names, n, s, i, def.fields[i]) && SameField(decode, all, n, s, t, i);
    FieldAsksOnce(decode, all, n, s, i);
    FieldAsksOnce(decode, all, n, t, i);
    SameAsk(decode, all, n, s, t, i);
  }

  /** Without references that are arrays too, agreement is enough for all that is asked for to have a message. */
  lemma AgreeingIsNamed(decode: string -> string, all: Registry, roots: seq<Ask>, order: seq<string>,
                        messages: map<string, Definition>, made: map<string, Schema>)
    requires FileOk(decode, all, roots, order, messages, made) && Resolving(decode, all) && RefsAlone(all)
    requires (forall r :: r in roots ==> Proper(decode, all, r)) && Agreeing(decode, all, roots)
    ensures AllNamed(decode, all, roots, messages)
  {
    forall r | r in roots ensures r.name in messages {
      RootIsDefined(decode, all, roots, made, r);
    }
    forall x, y | Reached(decode, all, roots, x) && x.name in messages && Asks(decode, all, x, y)
      ensures y.name in messages
    {
      var own := Ask(x.name, made[x.name]);
      assert Reached(decode, all, roots, own);
      ReachedIsProper(decode, all, roots, x);
      ReachedIsProper(decode, all, roots, own);
      AskedAlongside(decode, all, messages.Keys, x.name, own.schema, x.schema, messages[x.name], y);
    }
    forall a | Reached(decode, all, roots, a) ensures a.name in messages {
      ReachedStaysInside(decode, all, roots, messages.Keys, a);
    }
  }

  /** So there it is exactly a matter of agreement. */
  lemma FollowedExactlyWhenAgreeing(decode: string -> string, ops: seq<Operation>, schemas: Registry, all: Registry,
                                    order: seq<string>, messages: map<string, Definition>, made: map<string, Schema>)
    requires Extends(schemas, all) && Resolving(decode, all) && RefsAlone(all)
    requires FileOk(decode, all, RootsOf(decode, schemas, ops), order, messages, made)
    ensures var roots := RootsOf(decode, schemas, ops);
            AllFollowed(decode, all, roots, messages) <==> Agreeing(decode, all, roots)
  {
    var roots := RootsOf(decode, schemas, ops);
    FollowedExactlyWhen(decode, ops, schemas, all, order, messages, made);
    RootsAreProper(decode, schemas, all, ops);
    if Agreeing(decode, all, roots) { AgreeingIsNamed(decode, all, roots, order, messages, made); }
  }

  predicate SameFieldNames(s: Schema, t: Schema) {
    && |PropertiesOf(s)| == |PropertiesOf(t)|
    && forall i :: 0 <= i < |PropertiesOf(s)| ==> PropertiesOf(s)[i].name == PropertiesOf(t)[i].name
  }

  lemma OneMessageOneSchema(decode: string -> string, all: Registry, names: set<string>, n: string, s: Schema,
                            t: Schema, def: Definition)
    requires MessageOk(decode, all, names, n, s, def) && MessageOk(decode, all, names, n, t, def)
    ensures SameFieldNames(s, t)
  {
    forall i | 0 <= i < |PropertiesOf(s)| ensures PropertiesOf(s)[i].name == PropertiesOf(t)[i].name {
      assert FieldOk(decode, all, names, n, s, i, def.fields[i]) && FieldOk(decode, all, names, n, t, i, def.fields[i]);
    }
  }

  /** The first ask of all is always granted. */
  lemma FirstRootWins(decode: string -> string, all: Registry, roots: seq<Ask>, messages: map<string, Definition>,
                      made: map<string, Schema>)
    requires Follows(decode, all, messages, made) && Settled(decode, all, roots, made) && roots != []
    ensures roots[0].name in messages
    ensures MessageOk(decode, all, messages.Keys, roots[0].name, roots[0].schema, messages[roots[0].name])
  {
    FirstIsSettled(decode, all, roots, made);
  }

  lemma FirstIsSettled(decode: string -> string, all: Registry, roots: seq<Ask>, made: map<string, Schema>)
    requires Settled(decode, all, roots, made) && roots != []
    ensures roots[0].name in made && made[roots[0].name] == roots[0].schema
  {
    assert roots[0].name in made && SettledAt(decode, all, roots, made, 0);
    assert roots[..0] == [];
    forall s ensures !Reached(decode, all, [], Ask(roots[0].name, s)) {
      NothingFromNothing(decode, all, Ask(roots[0].name, s));
    }
  }

  lemma NothingFromNothing(decode: string -> string, all: Registry, a: Ask)
    ensures !Reached(decode, all, [], a)
  {
    forall steps: nat ensures !ReachedIn([], AskRelation(decode, all), a, steps) {
      NothingReached(AskRelation(decode, all), a, steps);
    }
  }

  // ---- where schemas are called like types ----

  lemma {:induction false} NothingToRemove(s: string, pattern: string)
    requires pattern != "" && pattern[0] !in s
    ensures RemoveFirst(s, pattern) == s
  {
    if s != "" {
      assert s[0] in s && forall c :: c in s[1..] ==> c in s;
      NothingToRemove(s[1..], pattern);
    }
  }

  lemma PrefixGoes(pattern: string, k: string)
    requires pattern != ""
    ensures RemoveFirst(pattern + k, pattern) == k
  {
  }

  lemma OtherPrefixStays(pattern: string, prefix: string, k: string, i: nat)
    requires pattern != "" && i < |pattern| && i < |prefix| && pattern[i] != prefix[i]
    requires pattern[0] !in prefix[1..] && pattern[0] !in k
    ensures RemoveFirst(prefix + k, pattern) == prefix + k
  {
    var s := prefix + k;
    assert s[i] == prefix[i] && s[1..] == prefix[1..] + k;
    NothingToRemove(s[1..], pattern);
    assert [s[0]] + s[1..] == s;
  }

  /** Both kinds of reference name what stands behind their prefix. */
  lemma RawNameOf(k: string)
    requires IsPlainWord(k)
    ensures RawName("#/definitions/" + k) == k && RawName("#/components/schemas/" + k) == k
  {
    PrefixGoes("#/definitions/", k);
    NothingToRemove(k, "#/components/schemas/");
    OtherPrefixStays("#/definitions/", "#/components/schemas/", k, 2);
    PrefixGoes("#/components/schemas/", k);
  }

  /** A nested object is called by its parent and its field, and one without properties is a Struct. */
  lemma TypesMean(decode: string -> string, all: Registry, names: set<string>, field: string, s: Schema, parent: string)
    requires s.ref == "" && s.typ == "object"
    ensures var t := TypeOf(decode, all, names, field, s, parent);
            && (!s.hasProperties ==> t == "google.protobuf.Struct")
            && (s.hasProperties && IsPlainWord(field) && IsLetter(field[0]) ==> t == parent + WordName(field))
  {
  }

  /** A reference is looked up under its raw name, and only then under its decoded one. */
  lemma TargetMeans(decode: string -> string, all: Registry, raw: string)
    ensures raw in all ==> Target(decode, all, raw) == Some(all[raw])
    ensures raw !in all && decode(raw) in all ==> Target(decode, all, raw) == Some(all[decode(raw)])
    ensures raw !in all && decode(raw) !in all ==> Target(decode, all, raw) == None
  {
  }

  /** A reference is called by its name if it resolves or there is a message of that name; otherwise it is a Struct. */
  lemma RefsMean(decode: string -> string, all: Registry, names: set<string>, s: Schema, raw: string)
    requires IsPlainWord(raw) && s.ref == "#/definitions/" + raw
    ensures var t, name := TypeOf(decode, all, names, "", s, ""), MessageName(decode, raw);
            t == if raw in all || decode(raw) in all || name in names then name else "google.protobuf.Struct"
  {
    RawNameOf(raw);
    TargetMeans(decode, all, raw);
    NoComponents(raw);
  }

  lemma NoComponents(raw: string)
    ensures !(COMPONENTS <= "#/definitions/" + raw)
  {
    assert ("#/definitions/" + raw)[2] == 'd' && COMPONENTS[2] == 'c';
  }

  /** Nothing inside the schema is an object written in place. */
  predicate OnlyRefs(s: Schema)
    decreases s
  {
    && (s.ref != "" || s.typ != "object" || !s.hasProperties)
    && (s.items.Some? ==> OnlyRefs(s.items.value))
  }

  predicate RefersTo(s: Schema, k: string) {
    s.ref == "#/definitions/" + k || s.ref == "#/components/schemas/" + k
  }

  /** Schemas are called like types, references are to them, and fields hold no objects written in place. */
  ghost predicate TypeNamed(decode: string -> string, all: Registry) {
    && (forall k :: k in all ==> IsTypeWord(k) && decode(k) == k)
    && (forall s: Schema :: InRegistry(all, s) && s.ref != "" ==> exists k :: k in all && RefersTo(s, k))
    && (forall s: Schema, i ::
          InRegistry(all, s) && 0 <= i < |PropertiesOf(s)| ==> OnlyRefs(PropertiesOf(s)[i].schema))
  }

  predicate Own(all: Registry, a: Ask) {
    a.name in all && a.schema == all[a.name]
  }

  lemma {:induction false} AskIsOwn(decode: string -> string, all: Registry, field: string, s: Schema, parent: string)
    requires TypeNamed(decode, all) && InRegistry(all, s) && OnlyRefs(s)
    ensures var a := AskOf(decode, all, field, s, parent); a.Some? ==> Own(all, a.value)
    decreases s
  {
    if s.ref != "" {
      var k :| k in all && RefersTo(s, k);
      RawNameOf(k);
      NameOfType(decode, k);
    } else if s.items.Some? {
      ItemsInRegistry(all, s);
      AskIsOwn(decode, all, field, s.items.value, parent);
    }
  }

  lemma AskedIsOwn(decode: string -> string, all: Registry, a: Ask, b: Ask)
    requires TypeNamed(decode, all) && Own(all, a) && Asks(decode, all, a, b)
    ensures Own(all, b)
  {
    var i :| 0 <= i < |PropertiesOf(a.schema)| && b in FieldAsks(decode, all, PropertiesOf(a.schema)[i], a.name);
    var p := PropertiesOf(a.schema)[i];
    InnerOfRegistry(all, a.name);
    FieldInRegistry(all, a.schema, i);
    AskIsOwn(decode, all, p.name, p.schema, a.name);
    AskIsOwn(decode, all, p.name, FieldSchema(p), a.name);
  }

  lemma ReachedIsOwn(decode: string -> string, all: Registry, roots: seq<Ask>, a: Ask)
    requires TypeNamed(decode, all) && (forall r :: r in roots ==> Own(all, r)) && Reached(decode, all, roots, a)
    ensures Own(all, a)
  {
    var next, own := AskRelation(decode, all), (x: Ask) => Own(all, x);
    var steps: nat :| ReachedIn(roots, next, a, steps);
    forall x, y | ReachedFrom(roots, next, x) && own(x) && next(x, y) ensures own(y) {
      AskedIsOwn(decode, all, x, y);
    }
    HandedOn(roots, next, own, a, steps);
  }

  lemma RootIsOwn(decode: string -> string, schemas: Registry, all: Registry, ref: string)
    requires Extends(schemas, all) && TypeNamed(decode, all)
    ensures forall a :: a in AsSeq(RootOf(decode, schemas, ref)) ==> Own(all, a)
  {
    var r := ResolveSchemaRef(schemas, ref);
    if r.Some? { NameOfType(decode, r.value); }
  }

  lemma {:induction false} RootsAreOwn(decode: string -> string, schemas: Registry, all: Registry, ops: seq<Operation>)
    requires Extends(schemas, all) && TypeNamed(decode, all)
    ensures forall a :: a in RootsOf(decode, schemas, ops) ==> Own(all, a)
  {
    if ops != [] {
      var last := |ops| - 1;
      RootsAreOwn(decode, schemas, all, ops[..last]);
      RootIsOwn(decode, schemas, all, ops[last].input);
      RootIsOwn(decode, schemas, all, ops[last].output);
    }
  }

  /** There no two schemas clash: the file has a message of the schema's own name for every schema that the operations
      use, directly or through references, and it follows that schema. */
  lemma TypesKeepTheirNames(decode: string -> string, ops: seq<Operation>, schemas: Registry, all: Registry,
                            order: seq<string>, messages: map<string, Definition>, made: map<string, Schema>)
    requires Extends(schemas, all) && TypeNamed(decode, all)
    requires FileOk(decode, all, RootsOf(decode, schemas, ops), order, messages, made)
    ensures AllFollowed(decode, all, RootsOf(decode, schemas, ops), messages)
    ensures forall n :: n in messages ==> n in all && MessageOk(decode, all, messages.Keys, n, all[n], messages[n])
    ensures forall op :: op in ops && !op.hidden && op.input in schemas && op.input !in {"", "void"} ==>
              InputType(decode, schemas, op) == op.input && op.input in messages
    ensures forall op :: op in ops && !op.hidden && op.output in schemas && op.output !in {"", "void"} ==>
              OutputType(decode, schemas, op) == op.output && op.output in messages
  {
    var roots := RootsOf(decode, schemas, ops);
    RootsAreOwn(decode, schemas, all, ops);
    forall a | Reached(decode, all, roots, a) ensures Own(all, a) {
      ReachedIsOwn(decode, all, roots, a);
    }
    NoClashFollowsSchemas(decode, all, roots, order, messages, made);
    forall n | n in messages ensures n in all && made[n] == all[n] {
      ReachedIsOwn(decode, all, roots, Ask(n, made[n]));
    }
    forall op | op in ops && !op.hidden
      ensures op.input in schemas && op.input !in {"", "void"} ==>
                InputType(decode, schemas, op) == op.input && op.input in messages
      ensures op.output in schemas && op.output !in {"", "void"} ==>
                OutputType(decode, schemas, op) == op.output && op.output in messages
    {
      RpcIsDefined(decode, ops, schemas, op, roots, made);
      if op.input in schemas { RegisteredName(decode, schemas, all, op.input); }
      if op.output in schemas { RegisteredName(decode, schemas, all, op.output); }
    }
  }

  lemma RegisteredName(decode: string -> string, schemas: Registry, all: Registry, ref: string)
    requires Extends(schemas, all) && TypeNamed(decode, all) && ref in schemas
    ensures MessageName(decode, ref) == ref && ref != EMPTY
  {
    NameOfType(decode, ref);
  }

  predicate UsesInput(op: Operation, input: string) {
    !op.hidden && op.input == input && op.output == ""
  }

  /** A name's prefix is dropped, so one operation's input `p/x` and another one's `q/x` ask for one message; it gets
      the first one's fields, and if the second one's schema has others, the second rpc line names a message that is not
      the one of its schema. */
  lemma PrefixesClash(decode: string -> string, p: string, q: string, x: string, one: Operation, two: Operation,
                      schemas: Registry, all: Registry, order: seq<string>, messages: map<string, Definition>,
                      made: map<string, Schema>)
    requires var a, b := p + "/" + x, q + "/" + x;
             && '/' !in x && UsesInput(one, a) && UsesInput(two, b) && a != "void" && b != "void"
             && a in schemas && b in schemas && decode(a) == a && decode(b) == b
             && !SameFieldNames(schemas[a], schemas[b])
    requires FileOk(decode, all, RootsOf(decode, schemas, [one, two]), order, messages, made)
    ensures var n := InputType(decode, schemas, two);
            && n == InputType(decode, schemas, one) && n in messages
            && MessageOk(decode, all, messages.Keys, n, schemas[one.input], messages[n])
            && !MessageOk(decode, all, messages.Keys, n, schemas[two.input], messages[n])
    ensures !Agreeing(decode, all, RootsOf(decode, schemas, [one, two]))
  {
    var a, b := one.input, two.input;
    LastSegment(p, x);
    LastSegment(q, x);
    assert a[|p|] == '/' && b[|q|] == '/';
    var n := MessageName(decode, a);
    assert n == MessageName(decode, b);
    TwoRoots(decode, schemas, one, two);
    RootIs(decode, schemas, a);
    RootIs(decode, schemas, b);
    var roots := [Ask(n, schemas[a]), Ask(n, schemas[b])];
    assert RootsOf(decode, schemas, [one, two]) == roots;
    ClashingRoots(decode, all, roots, messages, made);
    DisagreeingRoots(decode, all, roots);
  }

  lemma DisagreeingRoots(decode: string -> string, all: Registry, roots: seq<Ask>)
    requires |roots| == 2 && roots[0].name == roots[1].name && !SameFieldNames(roots[0].schema, roots[1].schema)
    ensures !Agreeing(decode, all, roots)
  {
    RootReached(roots, AskRelation(decode, all), roots[0]);
    RootReached(roots, AskRelation(decode, all), roots[1]);
    var s, t := roots[0].schema, roots[1].schema;
    if SameLayout(decode, all, roots[0].name, s, t) {
      forall i | 0 <= i < |PropertiesOf(s)| ensures PropertiesOf(s)[i].name == PropertiesOf(t)[i].name {
        assert SameField(decode, all, roots[0].name, s, t, i);
      }
    }
  }

  lemma ClashingRoots(decode: string -> string, all: Registry, roots: seq<Ask>, messages: map<string, Definition>,
                      made: map<string, Schema>)
    requires Follows(decode, all, messages, made) && Settled(decode, all, roots, made)
    requires |roots| == 2 && roots[0].name == roots[1].name && !SameFieldNames(roots[0].schema, roots[1].schema)
    ensures var n := roots[0].name;
            && n in messages && MessageOk(decode, all, messages.Keys, n, roots[0].schema, messages[n])
            && !MessageOk(decode, all, messages.Keys, n, roots[1].schema, messages[n])
  {
    FirstRootWins(decode, all, roots, messages, made);
    var n := roots[0].name;
    if MessageOk(decode, all, messages.Keys, n, roots[1].schema, messages[n]) {
      OneMessageOneSchema(decode, all, messages.Keys, n, roots[0].schema, roots[1].schema, messages[n]);
    }
  }

  lemma RootIs(decode: string -> string, schemas: Registry, ref: string)
    requires ref in schemas && ref !in {"", "void"}
    ensures AsSeq(RootOf(decode, schemas, ref)) == [Ask(MessageName(decode, ref), schemas[ref])]
  {
  }

  lemma TwoRoots(decode: string -> string, schemas: Registry, one: Operation, two: Operation)
    requires !one.hidden && !two.hidden && one.output == "" && two.output == ""
    ensures RootsOf(decode, schemas, [one, two])
         == AsSeq(RootOf(decode, schemas, one.input)) + AsSeq(RootOf(decode, schemas, two.input))
  {
    assert [one, two][..1] == [one] && [one][..0] == [];
    assert RootsOf(decode, schemas, [one]) == AsSeq(RootOf(decode, schemas, one.input));
  }

  /** When the components references resolve too, every type a definition names is a scalar, Struct or a
      message the file defines: the file is closed. */
  lemma ResolvedFileIsClosed(decode: string -> string, all: Registry, order: seq<string>,
                             messages: map<string, Definition>, made: map<string, Schema>, n: string, i: nat)
    requires Follows(decode, all, messages, made) && ComponentsResolve(decode, all)
    requires forall m :: m in order <==> m in messages
    requires n in messages && messages[n].Message? && i < |messages[n].fields|
    ensures var f := messages[n].fields[i];
            f.number == i + 1 && (f.typ in SCALARS || f.typ == STRUCT || f.typ in order)
  {
    assert FieldOk(decode, all, messages.Keys, n, made[n], i, messages[n].fields[i]);
    assert !Dangling(decode, all, messages[n].fields[i].typ);
  }
}
