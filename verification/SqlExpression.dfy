/** packages/postgres/src/sqlstore.ts: duplicateExpression, the text it prints and what its leaves compare. */
module SqlExpression {
  import opened Common
  import opened WebdaQL

  /** The translated tree; `Has` is the jsonb `?` operator. */
  datatype Sql =
    | SqlAnd(children: seq<Sql>)
    | SqlOr(children: seq<Sql>)
    | SqlEquals(attribute: string, value: Value)
    | SqlCompare(op: Operator, attribute: string, value: Value)
    | Has(attribute: string, value: Value)

  function Duplicate(e: Expression): (q: Sql)
    decreases e, 1
  {
    match e
    case And(children) => SqlAnd(DuplicateEach(children))
    case Or(children) => SqlOr(DuplicateEach(children))
    case Equals(attribute, value) => SqlEquals(attribute, value)
    case Compare(op, attribute, value) => SqlCompare(op, attribute, value)
    case InSet(attribute, values) => SqlOr(AnyOf(attribute, values))
    case Contains(attribute, value) => Has(attribute, value)
  }

  function DuplicateEach(es: seq<Expression>): (qs: seq<Sql>)
    ensures |qs| == |es|
    decreases es, 0
  {
    if es == [] then [] else [Duplicate(es[0])] + DuplicateEach(es[1..])
  }

  function AnyOf(attribute: string, values: seq<Value>): (qs: seq<Sql>)
    ensures |qs| == |values|
  {
    if values == [] then [] else [SqlEquals(attribute, values[0])] + AnyOf(attribute, values[1..])
  }

  // ---- the text ----

  datatype Token =
    | Open | Close | AndWord | OrWord
    | Column(attribute: string, json: bool)
    | Coalesce(attribute: string, json: bool, default: Value)
    | As | TypeName(name: string)
    | Sign(op: Option<Operator>)
    | Exists
    | Literal(value: Value)

  /** `toStringAttribute`: beside a text the column, beside another literal a coalesced column followed by `AS`. */
  function Operand(attribute: string, json: bool, literal: Value): (ts: seq<Token>) {
    match literal
    case Text(_) => [Column(attribute, json)]
    case Number(_) => [Coalesce(attribute, json, Number(0)), As, TypeName("bigint")]
    case Flag(_) => [Coalesce(attribute, json, Flag(false)), As, TypeName("boolean")]
  }

  /** `toString`: AND and OR are parenthesized below the root. */
  function Print(q: Sql, nested: bool): (ts: seq<Token>)
    decreases q, 1
  {
    match q
    case SqlAnd(children) => Bracket(Join(children, AndWord), nested)
    case SqlOr(children) => Bracket(Join(children, OrWord), nested)
    case SqlEquals(a, v) => Operand(a, false, v) + [Sign(None), Literal(v)]
    case SqlCompare(op, a, v) => Operand(a, false, v) + [Sign(Some(op)), Literal(v)]
    case Has(a, v) => Operand(a, true, v) + [Exists, Literal(v)]
  }

  function Bracket(ts: seq<Token>, nested: bool): (r: seq<Token>) {
    if nested then [Open] + ts + [Close] else ts
  }

  function Join(qs: seq<Sql>, word: Token): (ts: seq<Token>)
    decreases qs, 0
  {
    if qs == [] then []
    else if |qs| == 1 then Print(qs[0], true)
    else Print(qs[0], true) + ([word] + Join(qs[1..], word))
  }

  // ---- how SQL reads it ----

  datatype Parsed<T> = Parsed(value: T, rest: seq<Token>)

  /** A condition of a WHERE: terms joined by OR, and each term is factors joined by AND. `AS` has no place in one. */
  function ReadCondition(ts: seq<Token>): (r: Option<Parsed<seq<Sql>>>)
    ensures r.Some? ==> |r.value.rest| < |ts| && (As in ts ==> As in r.value.rest)
    decreases |ts|, 2
  {
    match ReadTerm(ts)
    case None => None
    case Some(Parsed(factors, rest)) =>
      if rest == [] || rest[0] != OrWord then Some(Parsed([SqlAnd(factors)], rest)) else
        match ReadCondition(rest[1..])
        case None => None
        case Some(Parsed(terms, rest)) => Some(Parsed([SqlAnd(factors)] + terms, rest))
  }

  function ReadTerm(ts: seq<Token>): (r: Option<Parsed<seq<Sql>>>)
    ensures r.Some? ==> |r.value.rest| < |ts| && (As in ts ==> As in r.value.rest)
    decreases |ts|, 1
  {
    match ReadFactor(ts)
    case None => None
    case Some(Parsed(factor, rest)) =>
      if rest == [] || rest[0] != AndWord then Some(Parsed([factor], rest)) else
        match ReadTerm(rest[1..])
        case None => None
        case Some(Parsed(factors, rest)) => Some(Parsed([factor] + factors, rest))
  }

  function ReadFactor(ts: seq<Token>): (r: Option<Parsed<Sql>>)
    ensures r.Some? ==> |r.value.rest| < |ts| && (As in ts ==> As in r.value.rest)
    decreases |ts|, 0
  {
    if ts != [] && ts[0] == Open then
      match ReadCondition(ts[1..])
      case None => None
      case Some(Parsed(terms, rest)) =>
        if rest != [] && rest[0] == Close then Some(Parsed(SqlOr(terms), rest[1..])) else None
    else if |ts| >= 3 && ts[0].Column? && ts[2].Literal? then
      match (ts[1], ts[0].json)
      case (Sign(None), false) => Some(Parsed(SqlEquals(ts[0].attribute, ts[2].value), ts[3..]))
      case (Sign(Some(op)), false) => Some(Parsed(SqlCompare(op, ts[0].attribute, ts[2].value), ts[3..]))
      case (Exists, true) => Some(Parsed(Has(ts[0].attribute, ts[2].value), ts[3..]))
      case _ => None
    else None
  }

  /** The condition that the database finds in the text, which is `TRUE` for an empty one; none if it is no SQL. */
  function Where(q: Sql): (condition: Option<Sql>) {
    var ts := Print(q, false);
    if ts == [] then Some(SqlAnd([])) else
      match ReadCondition(ts)
      case None => None
      case Some(Parsed(terms, rest)) => if rest == [] then Some(SqlOr(terms)) else None
  }

  // ---- what the database decides ----

  /** How the database writes a value that is no text, how it orders two texts (LIKE included), and how the casts of the
      intended reading read a value that is not of the literal's kind. */
  datatype Database = Database(
    text: Attribute -> string,
    order: (Operator, string, string) -> bool,
    cast: (Attribute, Value) -> Value)

  predicate SameKind(a: Value, b: Value) {
    (a.Text? && b.Text?) || (a.Number? && b.Number?) || (a.Flag? && b.Flag?)
  }

  predicate OrderNumbers(op: Operator, m: int, n: int) {
    match op
    case Lt => m < n
    case Gt => m > n
    case Le => m <= n
    case Ge => m >= n
    case Ne => m != n
    case Like => false
  }

  /** False comes before true. */
  function Rank(b: bool): (n: int) { if b then 1 else 0 }

  /** The operators are the orders they look like. */
  lemma OrdersMean(m: int, n: int, b: bool, c: bool)
    ensures OrderNumbers(Lt, m, n) <==> n - m > 0
    ensures OrderNumbers(Ge, m, n) <==> !OrderNumbers(Lt, m, n)
    ensures OrderNumbers(Gt, m, n) <==> OrderNumbers(Lt, n, m)
    ensures OrderNumbers(Le, m, n) <==> !OrderNumbers(Lt, n, m)
    ensures OrderNumbers(Ne, m, n) <==> OrderNumbers(Lt, m, n) || OrderNumbers(Gt, m, n)
    ensures OrderNumbers(Lt, Rank(b), Rank(c)) <==> !b && c
  {
  }

  /** Two values of one kind; others do not compare. */
  predicate Ordered(db: Database, op: Operator, a: Value, b: Value) {
    match (a, b)
    case (Number(m), Number(n)) => OrderNumbers(op, m, n)
    case (Flag(m), Flag(n)) => OrderNumbers(op, Rank(m), Rank(n))
    case (Text(s), Text(t)) => if op == Ne then s != t else db.order(op, s, t)
    case _ => false
  }

  /** What a leaf compares with its literal. `data#>>` gives NULL for a missing attribute and a text for any other.
      Beside a number or a boolean it is meant to be coalesced to 0 or false and cast. */
  function Seen(db: Database, attr: Attribute, literal: Value): (seen: Option<Value>) {
    match attr
    case Missing =>
      (match literal case Text(_) => None case Number(_) => Some(Number(0)) case Flag(_) => Some(Flag(false)))
    case _ =>
      if attr.One? && SameKind(attr.value, literal) then Some(attr.value)
      else if literal.Text? then Some(Text(db.text(attr)))
      else Some(db.cast(attr, literal))
  }

  datatype Truth = True | False | Unknown

  function FromBool(b: bool): (t: Truth) { if b then True else False }

  /** Comparing NULL is unknown. */
  function Decide(db: Database, op: Option<Operator>, attr: Attribute, literal: Value): (t: Truth) {
    match Seen(db, attr, literal)
    case None => Unknown
    case Some(v) =>
      (match op
       case None => FromBool(v == literal)
       case Some(Ne) => FromBool(v != literal)
       case Some(o) => FromBool(Ordered(db, o, v, literal)))
  }

  function Holds(db: Database, q: Sql, doc: Doc): (t: Truth)
    decreases q, 1
  {
    match q
    case SqlAnd(children) => HoldAll(db, children, doc)
    case SqlOr(children) => HoldAny(db, children, doc)
    case SqlEquals(attribute, value) => Decide(db, None, doc(attribute), value)
    case SqlCompare(op, attribute, value) => Decide(db, Some(op), doc(attribute), value)
    case Has(attribute, value) =>
      (match doc(attribute)
       case Missing => Unknown
       case One(_) => FromBool(db.cast(doc(attribute), value) == value)
       case Many(values) => FromBool(value in values))
  }

  function Both(a: Truth, b: Truth): (t: Truth) {
    if a == False || b == False then False else if a == Unknown || b == Unknown then Unknown else True
  }

  function Either(a: Truth, b: Truth): (t: Truth) {
    if a == True || b == True then True else if a == Unknown || b == Unknown then Unknown else False
  }

  function HoldAll(db: Database, qs: seq<Sql>, doc: Doc): (t: Truth)
    decreases qs, 0
  {
    if qs == [] then True else Both(Holds(db, qs[0], doc), HoldAll(db, qs[1..], doc))
  }

  function HoldAny(db: Database, qs: seq<Sql>, doc: Doc): (t: Truth)
    decreases qs, 0
  {
    if qs == [] then False else Either(Holds(db, qs[0], doc), HoldAny(db, qs[1..], doc))
  }

  /** WHERE takes the rows on which the condition is true. */
  predicate Selected(db: Database, q: Sql, doc: Doc) {
    Holds(db, q, doc) == True
  }

  /** `query` on a table with this row: whether it selects the row, or none if the database refuses the text. */
  function Answer(db: Database, e: Expression, doc: Doc): (selected: Option<bool>) {
    match Where(Duplicate(e))
    case None => None
    case Some(condition) => Some(Selected(db, condition, doc))
  }

  // ---- what the grammar can write ----

  /** No AND, OR or IN is empty, and LIKE and CONTAINS take texts. */
  predicate Written(e: Expression)
    decreases e, 1
  {
    match e
    case And(children) => children != [] && AllWritten(children)
    case Or(children) => children != [] && AllWritten(children)
    case InSet(_, values) => values != []
    case Compare(Like, _, v) => v.Text?
    case Contains(_, v) => v.Text?
    case _ => true
  }

  predicate AllWritten(es: seq<Expression>)
    decreases es, 0
  {
    es == [] || (Written(es[0]) && AllWritten(es[1..]))
  }

  /** A query without a condition is parsed to an AND of nothing. */
  predicate Parses(e: Expression) {
    e == And([]) || Written(e)
  }

  /** Every literal is a text. */
  predicate OnlyTexts(e: Expression)
    decreases e, 1
  {
    match e
    case And(children) => AllOnlyTexts(children)
    case Or(children) => AllOnlyTexts(children)
    case InSet(_, values) => forall v :: v in values ==> v.Text?
    case _ => e.value.Text?
  }

  predicate AllOnlyTexts(es: seq<Expression>)
    decreases es, 0
  {
    es == [] || (OnlyTexts(es[0]) && AllOnlyTexts(es[1..]))
  }

  // ---- the text is read back ----

  /** A tree that prints: its nodes are not empty. */
  predicate Full(q: Sql)
    decreases q, 1
  {
    match q
    case SqlAnd(children) => children != [] && AllFull(children)
    case SqlOr(children) => children != [] && AllFull(children)
    case _ => true
  }

  predicate AllFull(qs: seq<Sql>)
    decreases qs, 0
  {
    qs == [] || (Full(qs[0]) && AllFull(qs[1..]))
  }

  predicate Texts(q: Sql)
    decreases q, 1
  {
    match q
    case SqlAnd(children) => AllTexts(children)
    case SqlOr(children) => AllTexts(children)
    case _ => q.value.Text?
  }

  predicate AllTexts(qs: seq<Sql>)
    decreases qs, 0
  {
    qs == [] || (Texts(qs[0]) && AllTexts(qs[1..]))
  }

  lemma {:induction false} DuplicateIsFull(e: Expression)
    ensures Written(e) ==> Full(Duplicate(e))
    ensures Texts(Duplicate(e)) <==> OnlyTexts(e)
    decreases e, 1
  {
    match e {
      case And(children) => DuplicateAllFull(children);
      case Or(children) => DuplicateAllFull(children);
      case InSet(attribute, values) => AnyOfIsFull(attribute, values);
      case _ =>
    }
  }

  lemma {:induction false} DuplicateAllFull(es: seq<Expression>)
    ensures AllWritten(es) ==> AllFull(DuplicateEach(es))
    ensures AllTexts(DuplicateEach(es)) <==> AllOnlyTexts(es)
    decreases es, 0
  {
    if es != [] {
      DuplicateIsFull(es[0]);
      DuplicateAllFull(es[1..]);
      assert DuplicateEach(es)[1..] == DuplicateEach(es[1..]);
    }
  }

  lemma {:induction false} AnyOfIsFull(attribute: string, values: seq<Value>)
    ensures AllFull(AnyOf(attribute, values))
    ensures AllTexts(AnyOf(attribute, values)) <==> forall v :: v in values ==> v.Text?
  {
    if values != [] {
      AnyOfIsFull(attribute, values[1..]);
      assert AnyOf(attribute, values)[1..] == AnyOf(attribute, values[1..]);
      assert values == [values[0]] + values[1..];
    }
  }

  /** `AS` is printed exactly beside literals that are no texts. */
  lemma {:induction false} PrintsAs(q: Sql, nested: bool)
    ensures As in Print(q, nested) <==> !Texts(q)
    decreases q, 1
  {
    match q {
      case SqlAnd(children) => JoinsAs(children, AndWord);
      case SqlOr(children) => JoinsAs(children, OrWord);
      case _ => assert Print(q, nested)[1] == As || q.value.Text?;
    }
  }

  lemma {:induction false} JoinsAs(qs: seq<Sql>, word: Token)
    requires word != As
    ensures As in Join(qs, word) <==> !AllTexts(qs)
    decreases qs, 0
  {
    if qs != [] {
      PrintsAs(qs[0], true);
      JoinsAs(qs[1..], word);
    }
  }

  /** The tree that the text of a factor, of an AND's factors and of an OR's terms is read as. */
  function Reread(q: Sql): (r: Sql)
    decreases q, 1
  {
    match q
    case SqlAnd(children) => SqlOr([SqlAnd(Factors(children))])
    case SqlOr(children) => SqlOr(Terms(children))
    case _ => q
  }

  function Factors(qs: seq<Sql>): (r: seq<Sql>)
    decreases qs, 0
  {
    if qs == [] then [] else [Reread(qs[0])] + Factors(qs[1..])
  }

  function Terms(qs: seq<Sql>): (r: seq<Sql>)
    decreases qs, 0
  {
    if qs == [] then [] else [SqlAnd([Reread(qs[0])])] + Terms(qs[1..])
  }

  predicate NotNext(word: Token, ts: seq<Token>) {
    ts == [] || ts[0] != word
  }

  lemma {:induction false} FactorReadsBack(q: Sql, rest: seq<Token>)
    requires Full(q) && Texts(q)
    ensures ReadFactor(Print(q, true) + rest) == Some(Parsed(Reread(q), rest))
    decreases q, 1
  {
    var ts := Print(q, true) + rest;
    match q {
      case SqlAnd(children) =>
        TermReadsBack(children, [Close] + rest);
        Bracketed(Join(children, AndWord), rest);
      case SqlOr(children) =>
        ConditionReadsBack(children, [Close] + rest);
        Bracketed(Join(children, OrWord), rest);
      case _ =>
        assert ts[3..] == rest;
    }
  }

  lemma Bracketed(ts: seq<Token>, rest: seq<Token>)
    ensures (Bracket(ts, true) + rest)[0] == Open && (Bracket(ts, true) + rest)[1..] == ts + ([Close] + rest)
    ensures ([Close] + rest)[0] == Close && ([Close] + rest)[1..] == rest
  {
  }

  lemma ReadsFactors(ts: seq<Token>, factor: Sql, more: seq<Token>, factors: seq<Sql>, rest: seq<Token>)
    requires ReadFactor(ts) == Some(Parsed(factor, [AndWord] + more))
    requires ReadTerm(more) == Some(Parsed(factors, rest))
    ensures ReadTerm(ts) == Some(Parsed([factor] + factors, rest))
  {
    assert ([AndWord] + more)[0] == AndWord && ([AndWord] + more)[1..] == more;
  }

  lemma ReadsTerms(ts: seq<Token>, factor: Sql, more: seq<Token>, terms: seq<Sql>, rest: seq<Token>)
    requires ReadFactor(ts) == Some(Parsed(factor, [OrWord] + more))
    requires ReadCondition(more) == Some(Parsed(terms, rest))
    ensures ReadCondition(ts) == Some(Parsed([SqlAnd([factor])] + terms, rest))
  {
    assert ([OrWord] + more)[0] == OrWord && ([OrWord] + more)[1..] == more;
    assert ReadTerm(ts) == Some(Parsed([factor], [OrWord] + more));
  }

  lemma JoinMore(qs: seq<Sql>, word: Token, rest: seq<Token>)
    requires |qs| > 1
    ensures Join(qs, word) + rest == Print(qs[0], true) + ([word] + (Join(qs[1..], word) + rest))
  {
  }

  lemma {:induction false} TermReadsBack(qs: seq<Sql>, rest: seq<Token>)
    requires qs != [] && AllFull(qs) && AllTexts(qs) && NotNext(AndWord, rest)
    ensures ReadTerm(Join(qs, AndWord) + rest) == Some(Parsed(Factors(qs), rest))
    decreases qs, 0
  {
    if |qs| == 1 {
      FactorReadsBack(qs[0], rest);
      assert Join(qs, AndWord) == Print(qs[0], true);
      assert Factors(qs[1..]) == [] && Factors(qs) == [Reread(qs[0])];
    } else {
      var more := Join(qs[1..], AndWord) + rest;
      JoinMore(qs, AndWord, rest);
      FactorReadsBack(qs[0], [AndWord] + more);
      TermReadsBack(qs[1..], rest);
      ReadsFactors(Join(qs, AndWord) + rest, Reread(qs[0]), more, Factors(qs[1..]), rest);
    }
  }

  lemma {:induction false} ConditionReadsBack(qs: seq<Sql>, rest: seq<Token>)
    requires qs != [] && AllFull(qs) && AllTexts(qs) && NotNext(AndWord, rest) && NotNext(OrWord, rest)
    ensures ReadCondition(Join(qs, OrWord) + rest) == Some(Parsed(Terms(qs), rest))
    decreases qs, 0
  {
    if |qs| == 1 {
      FactorReadsBack(qs[0], rest);
      assert Join(qs, OrWord) == Print(qs[0], true);
      assert ReadTerm(Print(qs[0], true) + rest) == Some(Parsed([Reread(qs[0])], rest));
      assert Terms(qs[1..]) == [] && Terms(qs) == [SqlAnd([Reread(qs[0])])];
    } else {
      var more := Join(qs[1..], OrWord) + rest;
      JoinMore(qs, OrWord, rest);
      FactorReadsBack(qs[0], [OrWord] + more);
      ConditionReadsBack(qs[1..], rest);
      ReadsTerms(Join(qs, OrWord) + rest, Reread(qs[0]), more, Terms(qs[1..]), rest);
    }
  }

  /** Precedence changes nothing: every node below the root is in parentheses. */
  lemma {:induction false} RereadMeans(db: Database, q: Sql, doc: Doc)
    ensures Holds(db, Reread(q), doc) == Holds(db, q, doc)
    decreases q, 1
  {
    match q {
      case SqlAnd(children) =>
        AllRereadMean(db, children, doc);
        Single(db, SqlAnd(Factors(children)), doc);
      case SqlOr(children) => AllRereadMean(db, children, doc);
      case _ =>
    }
  }

  lemma Single(db: Database, q: Sql, doc: Doc)
    ensures HoldAll(db, [q], doc) == Holds(db, q, doc) == HoldAny(db, [q], doc)
  {
    assert [q][1..] == [];
  }

  lemma {:induction false} AllRereadMean(db: Database, qs: seq<Sql>, doc: Doc)
    ensures HoldAll(db, Factors(qs), doc) == HoldAll(db, qs, doc)
    ensures HoldAny(db, Terms(qs), doc) == HoldAny(db, qs, doc)
    decreases qs, 0
  {
    if qs != [] {
      RereadMeans(db, qs[0], doc);
      AllRereadMean(db, qs[1..], doc);
      Single(db, Reread(qs[0]), doc);
      assert Factors(qs)[1..] == Factors(qs[1..]) && Terms(qs)[1..] == Terms(qs[1..]);
    }
  }

  lemma RootReadsBack(q: Sql)
    requires Full(q) && Texts(q)
    ensures Print(q, false) != [] && Where(q) == Some(if q.SqlAnd? || q.SqlOr? then Reread(q) else SqlOr([SqlAnd([q])]))
  {
    var ts := Print(q, false);
    assert ts + [] == ts;
    match q {
      case SqlAnd(children) => TermReadsBack(children, []);
      case SqlOr(children) => ConditionReadsBack(children, []);
      case _ =>
        FactorReadsBack(q, []);
        assert ReadTerm(ts) == Some(Parsed([q], []));
    }
  }

  /** For every query that can be written: the database takes the text exactly when every literal is a text, and then
      reads it as the translated tree. */
  lemma TextIsSqlExactlyWhen(e: Expression)
    requires Parses(e)
    ensures Where(Duplicate(e)).Some? <==> OnlyTexts(e)
    ensures OnlyTexts(e) ==>
      forall db, doc :: Holds(db, Where(Duplicate(e)).value, doc) == Holds(db, Duplicate(e), doc)
  {
    var q := Duplicate(e);
    DuplicateIsFull(e);
    PrintsAs(q, false);
    if e != And([]) && OnlyTexts(e) {
      RootReadsBack(q);
      forall db, doc ensures Holds(db, Where(q).value, doc) == Holds(db, q, doc) {
        RereadMeans(db, q, doc);
        Single(db, q, doc);
        Single(db, SqlAnd([q]), doc);
      }
    }
  }

  lemma AnswerIsSelection(db: Database, e: Expression, doc: Doc)
    requires Parses(e)
    ensures Answer(db, e, doc) == if OnlyTexts(e) then Some(Selected(db, Duplicate(e), doc)) else None
  {
    TextIsSqlExactlyWhen(e);
  }

  // ---- on which documents the two agree ----

  /** The evaluator: a missing attribute differs from every literal and no order holds of it; numbers and booleans are
      ordered as numbers. How it orders texts, and values of different kinds, is left open. */
  ghost predicate Scripted(rel: Relation) {
    && (forall attr, v {:trigger rel(Ne, attr, v)} :: rel(Ne, attr, v) <==> attr != One(v))
    && (forall op, v {:trigger rel(op, Missing, v)} :: op != Ne ==> !rel(op, Missing, v))
    && (forall op, m, n {:trigger rel(op, One(Number(m)), Number(n))} ::
          op != Like ==> (rel(op, One(Number(m)), Number(n)) <==> OrderNumbers(op, m, n)))
    && (forall op, m, n {:trigger rel(op, One(Flag(m)), Flag(n))} ::
          op != Like ==> (rel(op, One(Flag(m)), Flag(n)) <==> OrderNumbers(op, Rank(m), Rank(n))))
  }

  /** Does the database take the attribute for the literal though the evaluator does not? It can when the attribute is
      missing and the literal is 0 or false, or when it is of another kind and reads like the literal. */
  predicate Mistaken(db: Database, attr: Attribute, literal: Value) {
    match (attr, literal)
    case (Missing, _) => literal == Number(0) || literal == Flag(false)
    case (_, Text(t)) => !(attr.One? && attr.value.Text?) && db.text(attr) == t
    case _ => !(attr.One? && SameKind(attr.value, literal)) && db.cast(attr, literal) == literal
  }

  /** The collation orders two texts as the evaluator does. */
  predicate SameOrder(rel: Relation, db: Database, op: Operator, s: string, t: string) {
    rel(op, One(Text(s)), Text(t)) <==> db.order(op, s, t)
  }

  /** What a leaf needs of a document for the database to decide it as the evaluator does. */
  predicate LeafAgrees(rel: Relation, db: Database, e: Expression, doc: Doc) {
    match e
    case Equals(a, v) => !Mistaken(db, doc(a), v)
    case InSet(a, vs) => (doc(a).One? && doc(a).value in vs) || forall v :: v in vs ==> !Mistaken(db, doc(a), v)
    case Compare(Ne, a, v) => !Mistaken(db, doc(a), v) && !(doc(a).Missing? && v.Text?)
    case Compare(op, a, v) => OrderAgrees(rel, db, op, doc(a), v)
    case Contains(a, v) => doc(a).One? ==> db.cast(doc(a), v) != v
    case _ => true
  }

  /** An order: on two texts a matter of the collation, on two numbers or booleans always, on a missing attribute beside
      a text always and otherwise as 0 or false compares. Values of different kinds are compared by neither's rules. */
  predicate OrderAgrees(rel: Relation, db: Database, op: Operator, attr: Attribute, v: Value) {
    match (attr, v)
    case (Missing, Text(_)) => true
    case (Missing, Number(n)) => !OrderNumbers(op, 0, n)
    case (Missing, Flag(b)) => !OrderNumbers(op, 0, Rank(b))
    case (One(Text(s)), Text(t)) => SameOrder(rel, db, op, s, t)
    case (One(Number(_)), Number(_)) => true
    case (One(Flag(_)), Flag(_)) => true
    case _ => rel(op, attr, v) <==> Ordered(db, op, Seen(db, attr, v).value, v)
  }

  lemma {:induction false} AnyEqual(db: Database, attribute: string, values: seq<Value>, doc: Doc)
    ensures HoldAny(db, AnyOf(attribute, values), doc) == True
        <==> exists v :: v in values && Decide(db, None, doc(attribute), v) == True
  {
    if values != [] {
      AnyEqual(db, attribute, values[1..], doc);
      assert AnyOf(attribute, values)[1..] == AnyOf(attribute, values[1..]);
      assert values == [values[0]] + values[1..];
    }
  }

  lemma EqualAgrees(db: Database, attr: Attribute, v: Value)
    ensures Decide(db, None, attr, v) == True <==> attr == One(v) || Mistaken(db, attr, v)
    ensures attr == One(v) ==> !Mistaken(db, attr, v)
  {
  }

  /** Of a single comparison, as it is meant to be read, exactly. */
  lemma LeafIntendedExactly(rel: Relation, db: Database, e: Expression, doc: Doc)
    requires Scripted(rel) && !e.And? && !e.Or? && Written(e)
    ensures (Selected(db, Duplicate(e), doc) <==> Eval(rel, e, doc)) <==> LeafAgrees(rel, db, e, doc)
  {
    match e {
      case Equals(a, v) => EqualAgrees(db, doc(a), v);
      case InSet(a, vs) =>
        AnyEqual(db, a, vs, doc);
        forall v | v in vs
          ensures Decide(db, None, doc(a), v) == True <==> doc(a) == One(v) || Mistaken(db, doc(a), v)
        {
          EqualAgrees(db, doc(a), v);
        }
      case Compare(op, a, v) => CompareAgrees(rel, db, op, doc(a), v);
      case Contains(a, v) =>
    }
  }

  lemma CompareAgrees(rel: Relation, db: Database, op: Operator, attr: Attribute, v: Value)
    requires Scripted(rel) && (op == Like ==> v.Text?)
    ensures op == Ne ==> ((Decide(db, Some(op), attr, v) == True <==> rel(op, attr, v))
                          <==> !Mistaken(db, attr, v) && !(attr.Missing? && v.Text?))
    ensures op != Ne ==> ((Decide(db, Some(op), attr, v) == True <==> rel(op, attr, v))
                          <==> OrderAgrees(rel, db, op, attr, v))
  {
    if op == Ne {
      EqualAgrees(db, attr, v);
      assert rel(Ne, attr, v) <==> attr != One(v);
    } else {
      assert attr.Missing? ==> !rel(op, Missing, v);
    }
  }

  /** Of a single comparison, as it is: the database answers as the evaluator exactly when the literals are texts and
      the document is one on which the two agree. */
  lemma LeafAgreesExactly(rel: Relation, db: Database, e: Expression, doc: Doc)
    requires Scripted(rel) && !e.And? && !e.Or? && Written(e)
    ensures Answer(db, e, doc) == Some(Eval(rel, e, doc)) <==> OnlyTexts(e) && LeafAgrees(rel, db, e, doc)
  {
    AnswerIsSelection(db, e, doc);
    LeafIntendedExactly(rel, db, e, doc);
  }

  /** All comparisons of an expression. */
  predicate AllAgree(rel: Relation, db: Database, e: Expression, doc: Doc)
    decreases e, 1
  {
    match e
    case And(children) => EachAgrees(rel, db, children, doc)
    case Or(children) => EachAgrees(rel, db, children, doc)
    case _ => LeafAgrees(rel, db, e, doc)
  }

  predicate EachAgrees(rel: Relation, db: Database, es: seq<Expression>, doc: Doc)
    decreases es, 0
  {
    es == [] || (AllAgree(rel, db, es[0], doc) && EachAgrees(rel, db, es[1..], doc))
  }

  /** Where they agree on the comparisons they agree on the whole, with every leaf read as it is meant to be. */
  lemma {:induction false} DuplicatePreservesMeaning(rel: Relation, db: Database, e: Expression, doc: Doc)
    requires Scripted(rel) && Parses(e) && AllAgree(rel, db, e, doc)
    ensures Selected(db, Duplicate(e), doc) <==> Eval(rel, e, doc)
    decreases e, 1
  {
    match e {
      case And(children) => DuplicateEachPreserves(rel, db, children, doc);
      case Or(children) => DuplicateEachPreserves(rel, db, children, doc);
      case _ => LeafIntendedExactly(rel, db, e, doc);
    }
  }

  lemma {:induction false} DuplicateEachPreserves(rel: Relation, db: Database, es: seq<Expression>, doc: Doc)
    requires Scripted(rel) && AllWritten(es) && EachAgrees(rel, db, es, doc)
    ensures HoldAll(db, DuplicateEach(es), doc) == True <==> EvalAll(rel, es, doc)
    ensures HoldAny(db, DuplicateEach(es), doc) == True <==> EvalAny(rel, es, doc)
    decreases es, 0
  {
    if es != [] {
      DuplicatePreservesMeaning(rel, db, es[0], doc);
      DuplicateEachPreserves(rel, db, es[1..], doc);
      assert DuplicateEach(es)[1..] == DuplicateEach(es[1..]);
    }
  }

  /** The whole way from the expression through its text to the rows, NULLs, precedence and the ORs that stand for INs
      included: a query whose literals are texts selects exactly the rows that the expression accepts, where its
      comparisons agree; any other is refused. */
  lemma QueryAnswers(rel: Relation, db: Database, e: Expression, doc: Doc)
    requires Scripted(rel) && Parses(e)
    ensures Answer(db, e, doc).None? <==> !OnlyTexts(e)
    ensures OnlyTexts(e) && AllAgree(rel, db, e, doc) ==> Answer(db, e, doc) == Some(Eval(rel, e, doc))
  {
    AnswerIsSelection(db, e, doc);
    if AllAgree(rel, db, e, doc) { DuplicatePreservesMeaning(rel, db, e, doc); }
  }

  /** The OR of equalities that stands for an IN, on its own: it selects exactly the rows that one of the equalities
      selects, so the rewriting adds no difference to those of equality. */
  lemma InIsAnyEquality(db: Database, attribute: string, values: seq<Value>, doc: Doc)
    ensures Selected(db, Duplicate(InSet(attribute, values)), doc)
       <==> exists v :: v in values && Selected(db, Duplicate(Equals(attribute, v)), doc)
  {
    AnyEqual(db, attribute, values, doc);
    forall v ensures Selected(db, Duplicate(Equals(attribute, v)), doc)
                <==> Decide(db, None, doc(attribute), v) == True
    {
    }
    if v :| v in values && Decide(db, None, doc(attribute), v) == True {
      assert Selected(db, Duplicate(Equals(attribute, v)), doc);
    }
  }

  /** On every document without the attribute, `a != "x"` holds for the evaluator and selects no row. Beside a number or
      a boolean the query is refused. */
  lemma MissingAttributesDisagree(rel: Relation, db: Database, a: string, v: Value, doc: Doc)
    requires Scripted(rel) && doc(a).Missing?
    ensures Eval(rel, Compare(Ne, a, v), doc)
    ensures Answer(db, Compare(Ne, a, v), doc) == if v.Text? then Some(false) else None
  {
    AnswerIsSelection(db, Compare(Ne, a, v), doc);
    assert rel(Ne, doc(a), v);
  }

  /** Read as they are meant, comparisons with numbers would differ too: `a = 0` and `a < 5` hold for the database of a
      document without the attribute, and for the evaluator they do not. */
  lemma CoalescedZeroDisagrees(rel: Relation, db: Database, a: string, doc: Doc)
    requires Scripted(rel) && doc(a).Missing?
    ensures var e := Equals(a, Number(0)); !Eval(rel, e, doc) && Selected(db, Duplicate(e), doc)
    ensures var e := Compare(Lt, a, Number(5)); !Eval(rel, e, doc) && Selected(db, Duplicate(e), doc)
  {
    assert !rel(Lt, Missing, Number(5));
  }

  /** On an empty list the rewriting fails: IN accepts nothing, and an OR without alternatives prints as nothing, which
      at the top is replaced by TRUE; below the root it prints as `( )`, which is refused. */
  lemma EmptyInFlips(rel: Relation, db: Database, attribute: string, doc: Doc)
    ensures var e := InSet(attribute, []); Answer(db, e, doc) == Some(true) && !Eval(rel, e, doc)
    ensures Answer(db, And([InSet(attribute, [])]), doc) == None
  {
    var es := [InSet(attribute, [])];
    assert es[1..] == [] && DuplicateEach(es) == [SqlOr([])] + [] == [SqlOr([])];
    assert Print(Duplicate(And(es)), false) == Print(SqlOr([]), true);
    assert Print(SqlOr([]), true) == [Open] + [] + [Close] == [Open, Close];
    assert [Open, Close][1..] == [Close];
    assert ReadFactor([Close]) == None && ReadTerm([Close]) == None && ReadCondition([Close]) == None;
    assert ReadFactor([Open, Close]) == None;
  }
}
