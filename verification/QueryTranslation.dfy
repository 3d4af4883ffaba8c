/** WebdaQL expressions and what they mean (packages/ql/src/query.ts). */
module WebdaQL {
  datatype Value = Text(s: string) | Number(n: int) | Flag(b: bool)

  /** What a document holds at a dotted attribute path. */
  datatype Attribute = Missing | One(value: Value) | Many(values: seq<Value>)

  type Doc = string -> Attribute

  datatype Operator = Lt | Gt | Le | Ge | Ne | Like

  datatype Expression =
    | And(children: seq<Expression>)
    | Or(children: seq<Expression>)
    | Equals(attribute: string, value: Value)
    | Compare(op: Operator, attribute: string, value: Value)
    | InSet(attribute: string, values: seq<Value>)
    | Contains(attribute: string, value: Value)

  /** How the evaluator compares an attribute to a literal. */
  type Relation = (Operator, Attribute, Value) -> bool

  function Eval(rel: Relation, e: Expression, doc: Doc): (r: bool)
    decreases e, 1
  {
    match e
    case And(children) => EvalAll(rel, children, doc)
    case Or(children) => children == [] || EvalAny(rel, children, doc)
    case Equals(attribute, value) => doc(attribute) == One(value)
    case Compare(op, attribute, value) => rel(op, doc(attribute), value)
    case InSet(attribute, values) => doc(attribute).One? && doc(attribute).value in values
    case Contains(attribute, value) => doc(attribute).Many? && value in doc(attribute).values
  }

  function EvalAll(rel: Relation, es: seq<Expression>, doc: Doc): (r: bool)
    decreases es, 0
  {
    es == [] || (Eval(rel, es[0], doc) && EvalAll(rel, es[1..], doc))
  }

  function EvalAny(rel: Relation, es: seq<Expression>, doc: Doc): (r: bool)
    decreases es, 0
  {
    es != [] && (Eval(rel, es[0], doc) || EvalAny(rel, es[1..], doc))
  }

  /** No OR is empty (the grammar cannot write one). */
  predicate NoEmptyOr(e: Expression)
    decreases e, 1
  {
    match e
    case And(children) => NoEmptyOrIn(children)
    case Or(children) => children != [] && NoEmptyOrIn(children)
    case _ => true
  }

  predicate NoEmptyOrIn(es: seq<Expression>)
    decreases es, 0
  {
    es == [] || (NoEmptyOr(es[0]) && NoEmptyOrIn(es[1..]))
  }
}

/** packages/mongodb/src/mongodb.ts: mapExpression. */
module MongoFilter {
  import opened WebdaQL

  /** One key of a filter document. */
  datatype Clause =
    | Match(value: Value)
    | Rel(op: Operator, operand: Value)
    | AnyOf(values: seq<Value>)
    | Alternatives(filters: seq<Document>)

  datatype Entry = Entry(key: string, clause: Clause)

  /** A filter document: its keys in order, each once. */
  type Filter = seq<Entry>
  datatype Document = Document(entries: Filter)

  /** Every clause of a filter has to hold. Equality and `$in` also match inside an array. */
  function Matches(rel: Relation, f: Filter, doc: Doc): (r: bool)
    decreases f, 1
  {
    f == [] || (Holds(rel, f[0].key, f[0].clause, doc) && Matches(rel, f[1..], doc))
  }

  function Holds(rel: Relation, key: string, c: Clause, doc: Doc): (r: bool)
    decreases c, 1
  {
    match c
    case Match(value) => (match doc(key) case Missing => false case One(v) => v == value case Many(vs) => value in vs)
    case Rel(op, operand) => rel(op, doc(key), operand)
    case AnyOf(values) =>
      (match doc(key)
       case Missing => false
       case One(v) => v in values
       case Many(vs) => exists i :: 0 <= i < |vs| && vs[i] in values)
    case Alternatives(filters) => MatchesAny(rel, filters, doc)
  }

  function MatchesAny(rel: Relation, fs: seq<Document>, doc: Doc): (r: bool)
    decreases fs, 0
  {
    fs != [] && (Matches(rel, fs[0].entries, doc) || MatchesAny(rel, fs[1..], doc))
  }

  predicate HasKey(f: Filter, key: string) {
    exists i :: 0 <= i < |f| && f[i].key == key
  }

  /** Setting a key of an object: in place if it is there, at the end if not. */
  function SetKey(f: Filter, e: Entry): (r: Filter)
    ensures forall k :: HasKey(r, k) <==> HasKey(f, k) || k == e.key
  {
    if f == [] then
      assert [e][0].key == e.key;
      [e]
    else if f[0].key == e.key then
      var r := [e] + f[1..];
      assert forall i :: 0 <= i < |r| ==> r[i].key == f[i].key;
      assert forall k :: HasKey(r, k) <==> HasKey(f, k);
      r
    else
      var tail := SetKey(f[1..], e);
      var r := [f[0]] + tail;
      assert forall k :: HasKey(r, k) <==> k == f[0].key || HasKey(tail, k) by { ConsKeys(f[0], tail); }
      assert forall k :: HasKey(f, k) <==> k == f[0].key || HasKey(f[1..], k) by {
        ConsKeys(f[0], f[1..]);
        assert f == [f[0]] + f[1..];
      }
      r
  }

  lemma ConsKeys(e: Entry, f: Filter)
    ensures forall k :: HasKey([e] + f, k) <==> k == e.key || HasKey(f, k)
  {
    var r := [e] + f;
    assert r[0] == e;
    forall k ensures HasKey(r, k) <==> k == e.key || HasKey(f, k) {
      if HasKey(f, k) { var i :| 0 <= i < |f| && f[i].key == k; assert r[i + 1].key == k; }
      if HasKey(r, k) && k != e.key { var i :| 0 <= i < |r| && r[i].key == k; assert f[i - 1].key == k; }
    }
  }

  /** `{ ...a, ...b }`. */
  function Spread(a: Filter, b: Filter): (r: Filter)
    decreases |b|
  {
    if b == [] then a else Spread(SetKey(a, b[0]), b[1..])
  }

  function MapExpression(e: Expression): (f: Filter)
    decreases e, 1
  {
    match e
    case And(children) => MapAll(children)
    case Or(children) => [Entry("$or", Alternatives(MapEach(children)))]
    case Equals(attribute, value) => [Entry(attribute, Match(value))]
    case Compare(op, attribute, value) => [Entry(attribute, Rel(op, value))]
    case InSet(attribute, values) => [Entry(attribute, AnyOf(values))]
    case Contains(attribute, value) => [Entry(attribute, Match(value))]
  }

  function MapAll(es: seq<Expression>): (f: Filter)
    decreases es, 0
  {
    if es == [] then [] else Spread(MapAll(es[..|es| - 1]), MapExpression(es[|es| - 1]))
  }

  function MapEach(es: seq<Expression>): (fs: seq<Document>)
    decreases es, 0
  {
    if es == [] then [] else [Document(MapExpression(es[0]))] + MapEach(es[1..])
  }

  /** The function as the service runs it: AND reassigns `query` for each child in turn. */
  method MapExpressionOf(e: Expression) returns (query: Filter)
    ensures query == MapExpression(e)
    decreases e
  {
    match e {
      case And(children) =>
        query := [];
        for i := 0 to |children|
          invariant query == MapAll(children[..i])
        {
          assert children[..i + 1][..i] == children[..i];
          var mapped := MapExpressionOf(children[i]);
          query := Spread(query, mapped);
        }
        assert children[..|children|] == children;
      case Or(children) =>
        var mapped: seq<Document> := [];
        for i := 0 to |children|
          invariant mapped + MapEach(children[i..]) == MapEach(children)
        {
          assert children[i..][1..] == children[i + 1..];
          var f := MapExpressionOf(children[i]);
          mapped := mapped + [Document(f)];
        }
        assert children[|children|..] == [] && mapped == MapEach(children);
        query := [Entry("$or", Alternatives(mapped))];
      case Equals(attribute, value) => query := [Entry(attribute, Match(value))];
      case Compare(op, attribute, value) => query := [Entry(attribute, Rel(op, value))];
      case InSet(attribute, values) => query := [Entry(attribute, AnyOf(values))];
      case Contains(attribute, value) => query := [Entry(attribute, Match(value))];
    }
  }

  // ---- what merging by spread does ----

  ghost predicate DistinctKeys(f: Filter) {
    forall i, j :: 0 <= i < j < |f| ==> f[i].key != f[j].key
  }

  /** The clauses with keys outside a set hold. */
  ghost predicate HoldOutside(rel: Relation, f: Filter, keys: set<string>, doc: Doc) {
    forall x :: x in f && x.key !in keys ==> Holds(rel, x.key, x.clause, doc)
  }

  lemma {:induction false} MatchesAll(rel: Relation, f: Filter, doc: Doc)
    ensures Matches(rel, f, doc) <==> HoldOutside(rel, f, {}, doc)
  {
    if f != [] {
      MatchesAll(rel, f[1..], doc);
      assert f == [f[0]] + f[1..];
    }
  }

  lemma TailLacks(f: Filter)
    requires f != [] && DistinctKeys(f)
    ensures DistinctKeys(f[1..]) && !HasKey(f[1..], f[0].key)
    ensures forall x :: x in f[1..] ==> x.key != f[0].key
  {
    assert forall i :: 0 <= i < |f| - 1 ==> f[1..][i].key == f[i + 1].key;
  }

  lemma {:induction false} SetKeyElements(f: Filter, e: Entry)
    requires DistinctKeys(f)
    ensures forall x :: x in SetKey(f, e) <==> x == e || (x in f && x.key != e.key)
    ensures DistinctKeys(SetKey(f, e))
  {
    if f != [] {
      TailLacks(f);
      assert f == [f[0]] + f[1..];
      if f[0].key != e.key {
        SetKeyElements(f[1..], e);
        var tail := SetKey(f[1..], e);
        assert forall i :: 0 <= i < |tail| ==> tail[i] in tail;
      }
    }
  }

  /** A merge has the later filter's clauses and, of the earlier one, those whose keys the later one does not use. */
  lemma {:induction false} SpreadElements(a: Filter, b: Filter)
    requires DistinctKeys(a) && DistinctKeys(b)
    ensures forall x :: x in Spread(a, b) <==> x in b || (x in a && !HasKey(b, x.key))
    ensures DistinctKeys(Spread(a, b))
    decreases |b|
  {
    if b != [] {
      SetKeyElements(a, b[0]);
      TailLacks(b);
      SpreadElements(SetKey(a, b[0]), b[1..]);
      assert b == [b[0]] + b[1..];
      ConsKeys(b[0], b[1..]);
    }
  }

  lemma {:induction false} MapDistinct(e: Expression)
    ensures DistinctKeys(MapExpression(e))
    decreases e, 1
  {
    if e.And? { MapAllDistinct(e.children); }
  }

  lemma {:induction false} MapAllDistinct(es: seq<Expression>)
    ensures DistinctKeys(MapAll(es))
    decreases es, 0
  {
    if es != [] {
      MapAllDistinct(es[..|es| - 1]);
      MapDistinct(es[|es| - 1]);
      SpreadElements(MapAll(es[..|es| - 1]), MapExpression(es[|es| - 1]));
    }
  }

  /** Merging, exactly: outside any set of keys, a merge holds when the later filter does and the earlier one does
      outside the later one's keys too. */
  lemma SpreadHolds(rel: Relation, a: Filter, b: Filter, used: set<string>, keys: set<string>, doc: Doc)
    requires DistinctKeys(a) && DistinctKeys(b) && forall k :: HasKey(b, k) <==> k in used
    ensures HoldOutside(rel, Spread(a, b), keys, doc)
       <==> HoldOutside(rel, a, keys + used, doc) && HoldOutside(rel, b, keys, doc)
  {
    SpreadElements(a, b);
  }

  lemma OneClause(rel: Relation, e: Entry, keys: set<string>, doc: Doc)
    ensures Matches(rel, [e], doc) == Holds(rel, e.key, e.clause, doc)
    ensures HoldOutside(rel, [e], keys, doc) <==> e.key in keys || Holds(rel, e.key, e.clause, doc)
  {
    assert [e][1..] == [];
    assert e in [e];
  }

  lemma {:induction false} AllButLast(rel: Relation, es: seq<Expression>, doc: Doc)
    requires es != []
    ensures var k := |es| - 1;
            && (EvalAll(rel, es, doc) <==> EvalAll(rel, es[..k], doc) && Eval(rel, es[k], doc))
            && (NoEmptyOrIn(es) <==> NoEmptyOrIn(es[..k]) && NoEmptyOr(es[k]))
    decreases |es|
  {
    var k := |es| - 1;
    if k > 0 {
      AllButLast(rel, es[1..], doc);
      assert es[1..][..k - 1] == es[..k][1..];
    }
  }

  // ---- the top-level keys of a translation ----

  function Keys(e: Expression): (keys: set<string>)
    decreases e, 1
  {
    match e
    case And(children) => KeysOfAll(children)
    case Or(_) => {"$or"}
    case _ => {e.attribute}
  }

  function KeysOfAll(es: seq<Expression>): (keys: set<string>)
    decreases es, 0
  {
    if es == [] then {} else KeysOfAll(es[..|es| - 1]) + Keys(es[|es| - 1])
  }

  lemma OneKey(e: Entry)
    ensures forall k :: HasKey([e], k) <==> k == e.key
  {
    assert [e][0] == e;
  }

  lemma SpreadKeys(a: Filter, b: Filter)
    ensures forall k :: HasKey(Spread(a, b), k) <==> HasKey(a, k) || HasKey(b, k)
    decreases |b|
  {
    if b != [] {
      SpreadKeys(SetKey(a, b[0]), b[1..]);
      ConsKeys(b[0], b[1..]);
      assert b == [b[0]] + b[1..];
    }
  }

  lemma {:induction false} MapKeys(e: Expression)
    ensures forall k :: HasKey(MapExpression(e), k) <==> k in Keys(e)
    decreases e, 1
  {
    if e.And? { MapAllKeys(e.children); } else { OneKey(MapExpression(e)[0]); }
  }

  lemma {:induction false} MapAllKeys(es: seq<Expression>)
    ensures forall k :: HasKey(MapAll(es), k) <==> k in KeysOfAll(es)
    decreases es, 0
  {
    if es != [] {
      MapAllKeys(es[..|es| - 1]);
      MapKeys(es[|es| - 1]);
      SpreadKeys(MapAll(es[..|es| - 1]), MapExpression(es[|es| - 1]));
    }
  }

  // ---- the translation never loses a document ----

  /** Whatever conjuncts the merge drops, every document the expression accepts passes the filter. */
  lemma {:induction false} FilterOverApproximates(rel: Relation, e: Expression, doc: Doc)
    requires NoEmptyOr(e) && Eval(rel, e, doc)
    ensures Matches(rel, MapExpression(e), doc)
    decreases e, 1
  {
    match e {
      case And(children) => AndOverApproximates(rel, children, doc);
      case Or(children) =>
        OrOverApproximates(rel, children, doc);
        OneClause(rel, Entry("$or", Alternatives(MapEach(children))), {}, doc);
      case _ =>
        OneClause(rel, MapExpression(e)[0], {}, doc);
    }
  }

  lemma {:induction false} AndOverApproximates(rel: Relation, es: seq<Expression>, doc: Doc)
    requires NoEmptyOrIn(es) && EvalAll(rel, es, doc)
    ensures Matches(rel, MapAll(es), doc)
    decreases es, 0
  {
    if es != [] {
      var k := |es| - 1;
      var a, b := MapAll(es[..k]), MapExpression(es[k]);
      AllButLast(rel, es, doc);
      AndOverApproximates(rel, es[..k], doc);
      FilterOverApproximates(rel, es[k], doc);
      MapAllDistinct(es[..k]);
      MapDistinct(es[k]);
      SpreadElements(a, b);
      MatchesAll(rel, a, doc);
      MatchesAll(rel, b, doc);
      MatchesAll(rel, Spread(a, b), doc);
    }
  }

  lemma {:induction false} OrOverApproximates(rel: Relation, es: seq<Expression>, doc: Doc)
    requires NoEmptyOrIn(es) && EvalAny(rel, es, doc)
    ensures MatchesAny(rel, MapEach(es), doc)
    decreases es, 0
  {
    var rest := MapEach(es[1..]);
    assert ([Document(MapExpression(es[0]))] + rest)[1..] == rest;
    if Eval(rel, es[0], doc) {
      FilterOverApproximates(rel, es[0], doc);
    } else {
      OrOverApproximates(rel, es[1..], doc);
    }
  }

  // ---- what the filter means ----

  /** The expression with, at every AND, only the last conjunct on each key. */
  function Kept(e: Expression): (kept: Expression) {
    Unshadowed(e, {})
  }

  /** What is left of a conjunct when later ones use these keys. */
  function Unshadowed(e: Expression, later: set<string>): (kept: Expression)
    decreases e, 1
  {
    match e
    case And(children) => And(UnshadowedAll(children, later))
    case Or(children) => if "$or" in later then And([]) else Or(KeptEach(children))
    case _ => if e.attribute in later then And([]) else e
  }

  function UnshadowedAll(es: seq<Expression>, later: set<string>): (kept: seq<Expression>)
    ensures |kept| == |es|
    decreases es, 0
  {
    if es == [] then [] else
      var last := es[|es| - 1];
      UnshadowedAll(es[..|es| - 1], later + Keys(last)) + [Unshadowed(last, later)]
  }

  function KeptEach(es: seq<Expression>): (kept: seq<Expression>)
    ensures |kept| == |es|
    decreases es, 0
  {
    if es == [] then [] else [Unshadowed(es[0], {})] + KeptEach(es[1..])
  }

  /** Equality and IN are asked of attributes that are not arrays, CONTAINS of ones that are not scalars. */
  predicate Typed(e: Expression, doc: Doc)
    decreases e, 1
  {
    match e
    case And(children) => TypedEach(children, doc)
    case Or(children) => TypedEach(children, doc)
    case Equals(attribute, _) => !doc(attribute).Many?
    case InSet(attribute, _) => !doc(attribute).Many?
    case Contains(attribute, _) => !doc(attribute).One?
    case _ => true
  }

  predicate TypedEach(es: seq<Expression>, doc: Doc)
    decreases es, 0
  {
    es == [] || (Typed(es[0], doc) && TypedEach(es[1..], doc))
  }

  lemma {:induction false} TypedButLast(es: seq<Expression>, doc: Doc)
    requires es != []
    ensures TypedEach(es, doc) <==> TypedEach(es[..|es| - 1], doc) && Typed(es[|es| - 1], doc)
    decreases |es|
  {
    if |es| > 1 {
      TypedButLast(es[1..], doc);
      assert es[1..][..|es| - 2] == es[..|es| - 1][1..];
    }
  }

  lemma {:induction false} UnshadowedMeans(rel: Relation, e: Expression, later: set<string>, doc: Doc)
    requires NoEmptyOr(e) && Typed(e, doc)
    ensures HoldOutside(rel, MapExpression(e), later, doc) <==> Eval(rel, Unshadowed(e, later), doc)
    decreases e, 1
  {
    match e {
      case And(children) => UnshadowedAllMeans(rel, children, later, doc);
      case Or(children) =>
        KeptEachMeans(rel, children, doc);
        OneClause(rel, Entry("$or", Alternatives(MapEach(children))), later, doc);
      case _ =>
        OneClause(rel, MapExpression(e)[0], later, doc);
    }
  }

  lemma {:induction false} UnshadowedAllMeans(rel: Relation, es: seq<Expression>, later: set<string>, doc: Doc)
    requires NoEmptyOrIn(es) && TypedEach(es, doc)
    ensures HoldOutside(rel, MapAll(es), later, doc) <==> EvalAll(rel, UnshadowedAll(es, later), doc)
    decreases es, 0
  {
    if es != [] {
      var k := |es| - 1;
      AllButLast(rel, es, doc);
      TypedButLast(es, doc);
      UnshadowedAllMeans(rel, es[..k], later + Keys(es[k]), doc);
      UnshadowedMeans(rel, es[k], later, doc);
      MapAllDistinct(es[..k]);
      MapDistinct(es[k]);
      MapKeys(es[k]);
      SpreadHolds(rel, MapAll(es[..k]), MapExpression(es[k]), Keys(es[k]), later, doc);
      var kept := UnshadowedAll(es, later);
      AllButLast(rel, kept, doc);
      assert kept[..k] == UnshadowedAll(es[..k], later + Keys(es[k]));
    }
  }

  lemma {:induction false} KeptEachMeans(rel: Relation, es: seq<Expression>, doc: Doc)
    requires NoEmptyOrIn(es) && TypedEach(es, doc)
    ensures MatchesAny(rel, MapEach(es), doc) <==> EvalAny(rel, KeptEach(es), doc)
    decreases es, 0
  {
    if es != [] {
      var rest := MapEach(es[1..]);
      assert ([Document(MapExpression(es[0]))] + rest)[1..] == rest;
      assert ([Unshadowed(es[0], {})] + KeptEach(es[1..]))[1..] == KeptEach(es[1..]);
      UnshadowedMeans(rel, es[0], {}, doc);
      MatchesAll(rel, MapExpression(es[0]), doc);
      KeptEachMeans(rel, es[1..], doc);
    }
  }

  /** The filter means the expression with, at every AND, only the last conjunct on each key. */
  lemma FilterMeansKept(rel: Relation, e: Expression, doc: Doc)
    requires NoEmptyOr(e) && Typed(e, doc)
    ensures Matches(rel, MapExpression(e), doc) <==> Eval(rel, Kept(e), doc)
  {
    UnshadowedMeans(rel, e, {}, doc);
    MatchesAll(rel, MapExpression(e), doc);
  }

  /** So it is right on a document exactly when the conjuncts that were kept there imply the dropped ones. */
  lemma FilterIsExactExactlyWhen(rel: Relation, e: Expression, doc: Doc)
    requires NoEmptyOr(e) && Typed(e, doc)
    ensures (Matches(rel, MapExpression(e), doc) <==> Eval(rel, e, doc))
       <==> (Eval(rel, Kept(e), doc) ==> Eval(rel, e, doc))
  {
    FilterMeansKept(rel, e, doc);
    if Eval(rel, e, doc) { FilterOverApproximates(rel, e, doc); }
  }

  // ---- when nothing is dropped ----

  /** At every AND, no child uses a top-level key that an earlier one uses. */
  predicate DisjointAnds(e: Expression)
    decreases e, 1
  {
    match e
    case And(children) => DisjointChildren(children)
    case Or(children) => DisjointEach(children)
    case _ => true
  }

  predicate DisjointChildren(es: seq<Expression>)
    decreases es, 0
  {
    es == [] ||
    var k := |es| - 1;
    DisjointChildren(es[..k]) && DisjointAnds(es[k]) && KeysOfAll(es[..k]) !! Keys(es[k])
  }

  predicate DisjointEach(es: seq<Expression>)
    decreases es, 0
  {
    es == [] || (DisjointAnds(es[0]) && DisjointEach(es[1..]))
  }

  lemma {:induction false} DisjointIsKept(e: Expression, later: set<string>)
    requires DisjointAnds(e) && Keys(e) !! later
    ensures Unshadowed(e, later) == e
    decreases e, 1
  {
    match e {
      case And(children) => DisjointAllKept(children, later);
      case Or(children) => DisjointEachKept(children);
      case _ =>
    }
  }

  lemma {:induction false} DisjointAllKept(es: seq<Expression>, later: set<string>)
    requires DisjointChildren(es) && KeysOfAll(es) !! later
    ensures UnshadowedAll(es, later) == es
    decreases es, 0
  {
    if es != [] {
      var k := |es| - 1;
      DisjointAllKept(es[..k], later + Keys(es[k]));
      DisjointIsKept(es[k], later);
      assert es == es[..k] + [es[k]];
    }
  }

  lemma {:induction false} DisjointEachKept(es: seq<Expression>)
    requires DisjointEach(es)
    ensures KeptEach(es) == es
    decreases es, 0
  {
    if es != [] {
      DisjointIsKept(es[0], {});
      DisjointEachKept(es[1..]);
      assert es == [es[0]] + es[1..];
    }
  }

  /** With disjoint keys nothing is dropped: the filter accepts exactly the documents of the expression. */
  lemma DisjointFilterIsExact(rel: Relation, e: Expression, doc: Doc)
    requires NoEmptyOr(e) && DisjointAnds(e) && Typed(e, doc)
    ensures Matches(rel, MapExpression(e), doc) <==> Eval(rel, e, doc)
  {
    DisjointIsKept(e, {});
    FilterMeansKept(rel, e, doc);
  }

  /** Of two comparisons on one attribute joined by AND only the second reaches the database, so the
      translation is exact on a document exactly when the second comparison does not hold without the first. */
  lemma SecondComparisonOnly(rel: Relation, attribute: string, a: Operator, v: Value, b: Operator, w: Value, doc: Doc)
    ensures var e := And([Compare(a, attribute, v), Compare(b, attribute, w)]);
            && MapExpression(e) == [Entry(attribute, Rel(b, w))]
            && ((Matches(rel, MapExpression(e), doc) <==> Eval(rel, e, doc))
                <==> (rel(b, doc(attribute), w) ==> rel(a, doc(attribute), v)))
  {
    var x, y := Compare(a, attribute, v), Compare(b, attribute, w);
    var es := [x, y];
    assert es[..1] == [x] && es[..1][..0] == [] && es[1..] == [y] && es[1..][1..] == [];
    var fx, fy := Entry(attribute, Rel(a, v)), Entry(attribute, Rel(b, w));
    assert MapExpression(x) == [fx] && [fx][1..] == [];
    assert Spread([], [fx]) == Spread([fx], []) == [fx];
    assert MapAll(es[..1]) == [fx];
    assert [fy][1..] == [] && SetKey([fx], fy) == [fy] + [fx][1..] == [fy];
    assert MapAll(es) == Spread(MapAll(es[..1]), MapExpression(y)) == Spread(SetKey([fx], fy), []) == [fy];
    OneClause(rel, fy, {}, doc);
    AllButLast(rel, es, doc);
  }
}
