/** Rewriting a WHERE clause into a flat list of predicates. */
module FastPredicates {
  import opened Bytes
  import opened Json
  import opened Where

  datatype Triple = Triple(field: Text, op: Text, operand: Value)

  /** `is_fast_path_op`. */
  predicate FastOperator(op: Text) {
    match ParseOperator(op) case None => false case Some(o) => !o.Or? && !o.And?
  }

  /** Every triple passes: the predicate that replaces the clause. */
  predicate AllPass(h: Host, s: Bytes, ts: seq<Triple>) {
    ts == [] || (Predicate(h, s, ts[0].field, ts[0].op, ts[0].operand) == Some(true) && AllPass(h, s, ts[1..]))
  }

  lemma {:induction false} AllPassConcat(h: Host, s: Bytes, a: seq<Triple>, b: seq<Triple>)
    ensures AllPass(h, s, a + b) <==> AllPass(h, s, a) && AllPass(h, s, b)
  {
    hide Predicate;
    if a == [] {
      assert a + b == b;
    } else {
      AllPassConcat(h, s, a[1..], b);
      assert (a + b)[1..] == a[1..] + b;
    }
  }

  // ----- What is extracted -----

  /** The triples of an operator object; `None` when an operator cannot be used. */
  function OpTriples(field: Text, ops: seq<Field>): Option<seq<Triple>> {
    if ops == [] then Some([])
    else if !FastOperator(ops[0].key) then None
    else
      match OpTriples(field, ops[1..])
      case None => None
      case Some(r) => Some([Triple(field, ops[0].key, ops[0].val)] + r)
  }

  function ConditionTriples(field: Text, cond: Value): Option<seq<Triple>> {
    match cond
    case Str(_) => Some([Triple(field, EQ, cond)])
    case Num(_) => Some([Triple(field, EQ, cond)])
    case Bool(_) => Some([Triple(field, EQ, cond)])
    case Obj(ops) => OpTriples(field, ops)
    case _ => None
  }

  function FieldTriples(fs: seq<Field>): Option<seq<Triple>> {
    if fs == [] then Some([])
    else if fs[0].key != [] && fs[0].key[0] == 0x24 then None
    else
      match ConditionTriples(fs[0].key, fs[0].val)
      case None => None
      case Some(a) => match FieldTriples(fs[1..]) case None => None case Some(b) => Some(a + b)
  }

  /** Array clauses are flattened, unless some element yields no triple. */
  function ItemTriples(items: seq<Value>): Option<seq<Triple>>
    decreases items, 0
  {
    if items == [] then Some([])
    else
      match Triples(items[0])
      case None => None
      case Some(a) =>
        if a == [] then None
        else match ItemTriples(items[1..]) case None => None case Some(b) => Some(a + b)
  }

  function Triples(clause: Value): Option<seq<Triple>>
    decreases clause, 1
  {
    match clause
    case Arr(items) => ItemTriples(items)
    case Obj(fs) => FieldTriples(fs)
    case _ => None
  }

  // ----- Meaning is preserved on every byte string -----

  lemma {:induction false} OpTriplesMeaning(h: Host, s: Bytes, field: Text, ops: seq<Field>)
    requires OpTriples(field, ops).Some?
    ensures RawOps(h, s, field, ops) <==> AllPass(h, s, OpTriples(field, ops).value)
  {
    hide Predicate, FastOperator;
    if ops != [] {
      OpTriplesMeaning(h, s, field, ops[1..]);
      var r := OpTriples(field, ops).value;
      assert r[1..] == OpTriples(field, ops[1..]).value;
    }
  }

  lemma ConditionMeaning(h: Host, s: Bytes, field: Text, cond: Value)
    requires ConditionTriples(field, cond).Some?
    ensures RawCondition(h, s, field, cond) <==> AllPass(h, s, ConditionTriples(field, cond).value)
  {
    hide Predicate;
    if cond.Obj? {
      OpTriplesMeaning(h, s, field, cond.fields);
    } else {
      assert [Triple(field, EQ, cond)][1..] == [];
    }
  }

  lemma {:induction false} FieldMeaning(h: Host, s: Bytes, fs: seq<Field>)
    requires FieldTriples(fs).Some?
    ensures RawFields(h, s, fs) == Some(AllPass(h, s, FieldTriples(fs).value))
  {
    hide Predicate, RawCondition, ConditionTriples, RawAny, RawAll, AllPass;
    if fs == [] {
      assert AllPass(h, s, []) by { NothingPasses(h, s); }
    } else {
      FieldMeaning(h, s, fs[1..]);
      ConditionMeaning(h, s, fs[0].key, fs[0].val);
      AllPassConcat(h, s, ConditionTriples(fs[0].key, fs[0].val).value, FieldTriples(fs[1..]).value);
      assert OR[0] == 0x24 && AND[0] == 0x24;
    }
  }

  lemma NothingPasses(h: Host, s: Bytes)
    ensures AllPass(h, s, [])
  {
  }

  lemma {:induction false} ItemMeaning(h: Host, s: Bytes, items: seq<Value>)
    requires ItemTriples(items).Some?
    ensures RawAll(h, s, items) <==> AllPass(h, s, ItemTriples(items).value)
    decreases items, 0
  {
    hide Predicate, AllPass, RawWhere;
    if items == [] {
      NothingPasses(h, s);
    } else {
      TriplesMeaning(h, s, items[0]);
      ItemMeaning(h, s, items[1..]);
      AllPassConcat(h, s, Triples(items[0]).value, ItemTriples(items[1..]).value);
    }
  }

  /** The conjunction of the triples is the raw verdict on the clause. */
  lemma {:induction false} TriplesMeaning(h: Host, s: Bytes, clause: Value)
    requires Triples(clause).Some?
    ensures RawWhere(h, s, clause) == Some(AllPass(h, s, Triples(clause).value))
    decreases clause, 1
  {
    hide Predicate, AllPass, RawFields, RawAll;
    if clause.Arr? {
      ItemMeaning(h, s, clause.items);
    } else {
      FieldMeaning(h, s, clause.fields);
    }
  }

  /** `extract_fast_predicates`: no list at all and an empty list are both returned as empty. */
  function Extract(clause: Value): seq<Triple> {
    match Triples(clause) case None => [] case Some(r) => r
  }

  /** A non-empty extraction decides the clause on every byte string. */
  lemma ExtractMeaning(h: Host, s: Bytes, clause: Value)
    requires Extract(clause) != []
    ensures RawWhere(h, s, clause) == Some(AllPass(h, s, Extract(clause)))
  {
    hide Triples, RawWhere, AllPass;
    TriplesMeaning(h, s, clause);
  }

  /** The predicate the scan uses: the list if there is one, the whole clause otherwise. */
  predicate ScanPredicate(h: Host, s: Bytes, clause: Value) {
    if Extract(clause) != [] then AllPass(h, s, Extract(clause)) else RawWhere(h, s, clause) == Some(true)
  }

  lemma ScanPredicateMeaning(h: Host, s: Bytes, clause: Value)
    ensures ScanPredicate(h, s, clause) <==> RawWhere(h, s, clause) == Some(true)
  {
    hide Extract, RawWhere, AllPass;
    if Extract(clause) != [] { ExtractMeaning(h, s, clause); }
  }

  // ----- The extraction as loops over a growing list -----

  function Join(a: seq<Triple>, b: Option<seq<Triple>>): Option<seq<Triple>> {
    match b case None => None case Some(r) => Some(a + r)
  }

  lemma JoinAssociates(a: seq<Triple>, b: seq<Triple>, c: Option<seq<Triple>>)
    ensures Join(a + b, c) == Join(a, Join(b, c))
  {
    if c.Some? { assert a + b + c.value == a + (b + c.value); }
  }

  lemma JoinNothing(b: Option<seq<Triple>>)
    ensures Join([], b) == b
  {
    if b.Some? { assert [] + b.value == b.value; }
  }

  method ExtractOps(field: Text, ops: seq<Field>) returns (ok: bool, r: seq<Triple>)
    ensures OpTriples(field, ops) == if ok then Some(r) else None
  {
    hide FastOperator;
    r := [];
    assert ops[0..] == ops;
    JoinNothing(OpTriples(field, ops));
    for i := 0 to |ops|
      invariant OpTriples(field, ops) == Join(r, OpTriples(field, ops[i..]))
    {
      if !FastOperator(ops[i].key) { return false, []; }
      JoinAssociates(r, [Triple(field, ops[i].key, ops[i].val)], OpTriples(field, ops[i..][1..]));
      r := r + [Triple(field, ops[i].key, ops[i].val)];
      assert ops[i..][1..] == ops[i + 1..];
    }
    assert r + [] == r;
    ok := true;
  }

  method ExtractPredicates(clause: Value) returns (r: seq<Triple>)
    ensures r == Extract(clause)
    decreases clause
  {
    hide OpTriples;
    if clause.Arr? {
      var items := clause.items;
      r := [];
      assert items[0..] == items;
      JoinNothing(ItemTriples(items));
      for i := 0 to |items|
        invariant ItemTriples(items) == Join(r, ItemTriples(items[i..]))
      {
        var preds := ExtractPredicates(items[i]);
        if preds == [] { return []; }
        JoinAssociates(r, preds, ItemTriples(items[i..][1..]));
        r := r + preds;
        assert items[i..][1..] == items[i + 1..];
      }
      assert r + [] == r;
      return;
    }
    if !clause.Obj? { return []; }
    var fs := clause.fields;
    r := [];
    assert fs[0..] == fs;
    JoinNothing(FieldTriples(fs));
    for i := 0 to |fs|
      invariant FieldTriples(fs) == Join(r, FieldTriples(fs[i..]))
    {
      var field, cond := fs[i].key, fs[i].val;
      if field != [] && field[0] == 0x24 { return []; }
      var more := [Triple(field, EQ, cond)];
      if cond.Obj? {
        var ok;
        ok, more := ExtractOps(field, cond.fields);
        if !ok { return []; }
      } else if cond.Null? || cond.Arr? {
        return [];
      }
      JoinAssociates(r, more, FieldTriples(fs[i..][1..]));
      r := r + more;
      assert fs[i..][1..] == fs[i + 1..];
    }
    assert r + [] == r;
  }
}
