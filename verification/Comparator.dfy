/** The generic document comparator is a total preorder across mixed JSON types. */
module Comparator {
  import opened Bytes
  import opened Json
  import opened Codec
  import opened Replay
  import opened Order
  import opened Walker
  import opened Where
  import opened TopN
  import opened Floats

  // ----- JSON text -----

  function Hex(n: nat): byte
    requires n < 16
  {
    if n < 10 then 0x30 + n else 0x57 + n
  }

  function Escaped(b: byte): Text {
    if b == 0x22 || b == 0x5c then [0x5c, b]
    else if b == 0x08 then [0x5c, 0x62]
    else if b == 0x0c then [0x5c, 0x66]
    else if b == 0x0a then [0x5c, 0x6e]
    else if b == 0x0d then [0x5c, 0x72]
    else if b == 0x09 then [0x5c, 0x74]
    else if b < 0x20 then [0x5c, 0x75, 0x30, 0x30, Hex(b / 16), Hex(b % 16)]
    else [b]
  }

  function EscapedText(s: Text): Text {
    if s == [] then [] else Escaped(s[0]) + EscapedText(s[1..])
  }

  function Quoted(s: Text): Text {
    [0x22] + EscapedText(s) + [0x22]
  }

  /** `Value::to_string`. */
  function Render(h: Host, v: Value): Text
    decreases v, 1
  {
    match v
    case Null => [0x6e, 0x75, 0x6c, 0x6c]
    case Bool(b) => if b then [0x74, 0x72, 0x75, 0x65] else [0x66, 0x61, 0x6c, 0x73, 0x65]
    case Num(n) => h.digits(n)
    case Str(s) => Quoted(s)
    case Arr(items) => [0x5b] + RenderItems(h, items) + [0x5d]
    case Obj(fs) => [0x7b] + RenderFields(h, fs) + [0x7d]
  }

  function RenderItems(h: Host, items: seq<Value>): Text
    decreases items, 0
  {
    if items == [] then []
    else if |items| == 1 then Render(h, items[0])
    else Render(h, items[0]) + [0x2c] + RenderItems(h, items[1..])
  }

  function RenderFields(h: Host, fs: seq<Field>): Text
    decreases fs, 0
  {
    if fs == [] then []
    else
      var first := Quoted(fs[0].key) + [0x3a] + Render(h, fs[0].val);
      if |fs| == 1 then first else first + [0x2c] + RenderFields(h, fs[1..])
  }

  /** The text of a number starts with a minus sign or a digit. */
  ghost predicate Decimal(h: Host) {
    forall n: Number :: h.digits(n) != [] && (h.digits(n)[0] == 0x2d || 0x30 <= h.digits(n)[0] <= 0x39)
  }

  // ----- Comparing two values -----

  function CompareText(a: Text, b: Text): Ordering {
    if Less(a, b) then Lesser else if a == b then Equal else Greater
  }

  /** `compare_values`. */
  function CompareValues(h: Host, a: Option<Value>, b: Option<Value>): Ordering {
    match (a, b)
    case (None, None) => Equal
    case (None, Some(_)) => Greater
    case (Some(_), None) => Lesser
    case (Some(x), Some(y)) =>
      if x.Num? && y.Num? then PartialCompare(AsFloat(h, x.n), AsFloat(h, y.n))
      else if x.Str? && y.Str? then CompareText(x.s, y.s)
      else CompareText(Render(h, x), Render(h, y))
  }

  /** Types in the order of the first byte of their text; a missing value comes last. */
  function Class(v: Option<Value>): nat {
    match v
    case None => 7
    case Some(x) =>
      match x
      case Str(_) => 0
      case Num(_) => 1
      case Arr(_) => 2
      case Bool(b) => if b then 5 else 3
      case Null => 4
      case Obj(_) => 6
  }

  lemma ClassDecides(h: Host, a: Option<Value>, b: Option<Value>)
    requires Decimal(h) && Class(a) < Class(b)
    ensures CompareValues(h, a, b) == Lesser && CompareValues(h, b, a) == Greater
  {
    hide EscapedText, RenderItems, RenderFields;
    if b.Some? {
      var x, y := Render(h, a.value), Render(h, b.value);
      assert x[0] < y[0];
      assert Less(x, y) && !Less(y, x) && x != y;
    }
  }

  lemma CompareTextLaws(a: Text, b: Text, c: Text)
    ensures CompareText(b, a) == Flip(CompareText(a, b))
    ensures CompareText(a, b) != Greater && CompareText(b, c) != Greater ==> CompareText(a, c) != Greater
  {
    hide Less;
    LessTrichotomy(a, b);
    if Less(a, b) && Less(b, c) { LessTransitive(a, b, c); }
  }

  lemma SameClassLaws(h: Host, a: Option<Value>, b: Option<Value>, c: Option<Value>)
    requires Class(a) == Class(b) == Class(c)
    ensures CompareValues(h, b, a) == Flip(CompareValues(h, a, b))
    ensures CompareValues(h, a, b) != Greater && CompareValues(h, b, c) != Greater ==> CompareValues(h, a, c) != Greater
  {
    hide Render, IsNaN, ByValue, CompareText;
    if a.Some? && b.Some? && c.Some? {
      var x, y, z := a.value, b.value, c.value;
      if x.Num? {
        FiniteIsNumber(AsFloat(h, x.n));
        FiniteIsNumber(AsFloat(h, y.n));
        FiniteIsNumber(AsFloat(h, z.n));
      } else if x.Str? {
        CompareTextLaws(x.s, y.s, z.s);
      } else {
        CompareTextLaws(Render(h, x), Render(h, y), Render(h, z));
      }
    }
  }

  lemma CompareValuesLaws(h: Host, a: Option<Value>, b: Option<Value>, c: Option<Value>)
    requires Decimal(h)
    ensures CompareValues(h, b, a) == Flip(CompareValues(h, a, b))
    ensures CompareValues(h, a, b) != Greater && CompareValues(h, b, c) != Greater ==> CompareValues(h, a, c) != Greater
  {
    hide CompareValues, Class;
    if Class(a) < Class(b) { ClassDecides(h, a, b); } else if Class(b) < Class(a) { ClassDecides(h, b, a); } else { SameClassLaws(h, a, b, b); }
    if Class(b) < Class(c) { ClassDecides(h, b, c); } else if Class(c) < Class(b) { ClassDecides(h, c, b); }
    if Class(a) < Class(c) { ClassDecides(h, a, c); } else if Class(a) == Class(b) == Class(c) { SameClassLaws(h, a, b, c); }
  }

  // ----- Sort specifications -----

  const FIELD: Text := [0x66, 0x69, 0x65, 0x6c, 0x64]   // field
  const ORDER: Text := [0x6f, 0x72, 0x64, 0x65, 0x72]   // order

  /** `eq_ignore_ascii_case("desc")`. */
  predicate IsDesc(s: Text) {
    |s| == 4 && s[0] in {0x44, 0x64} && s[1] in {0x45, 0x65} && s[2] in {0x53, 0x73} && s[3] in {0x43, 0x63}
  }

  function TextField(v: Value, k: Text): Text {
    match Get(v, k) case Some(Str(s)) => s case _ => []
  }

  /** The field and direction of one entry of the `sort` array; other shapes are passed over. */
  function ReadSpec(spec: Value): Option<(Text, bool)> {
    if spec.Str? then Some((spec.s, false))
    else if spec.Obj? then Some((TextField(spec, FIELD), IsDesc(TextField(spec, ORDER))))
    else None
  }

  function Directed(h: Host, desc: bool, a: Option<Value>, b: Option<Value>): Ordering {
    if desc then Flip(CompareValues(h, a, b)) else CompareValues(h, a, b)
  }

  function CompareBySpec(h: Host, spec: Value, a: Value, b: Value): Ordering {
    var read := ReadSpec(spec);
    if read.None? || read.value.0 == [] then Equal
    else Directed(h, read.value.1, Nested(a, Split(read.value.0)), Nested(b, Split(read.value.0)))
  }

  /** `make_comparator`: the first entry that tells the documents apart decides. */
  function CompareDocs(h: Host, specs: seq<Value>, a: Value, b: Value): Ordering {
    if specs == [] then Equal
    else
      var o := CompareBySpec(h, specs[0], a, b);
      if o != Equal then o else CompareDocs(h, specs[1..], a, b)
  }

  lemma SpecLaws(h: Host, spec: Value, a: Value, b: Value, c: Value)
    requires Decimal(h)
    ensures CompareBySpec(h, spec, b, a) == Flip(CompareBySpec(h, spec, a, b))
    ensures CompareBySpec(h, spec, a, b) != Greater && CompareBySpec(h, spec, b, c) != Greater
            ==> CompareBySpec(h, spec, a, c) != Greater
  {
    hide Decimal, ReadSpec, CompareBySpec;
    var read := ReadSpec(spec);
    if read.None? || read.value.0 == [] {
      SpecSkipped(h, spec, a, b);
      SpecSkipped(h, spec, b, a);
      SpecSkipped(h, spec, a, c);
    } else {
      hide Directed, Nested, Split;
      var (field, desc) := read.value;
      SpecAt(h, spec, a, b, field, desc);
      SpecAt(h, spec, b, a, field, desc);
      SpecAt(h, spec, b, c, field, desc);
      SpecAt(h, spec, a, c, field, desc);
      FieldLaws(h, desc, Nested(a, Split(field)), Nested(b, Split(field)), Nested(c, Split(field)));
    }
  }

  lemma SpecSkipped(h: Host, spec: Value, a: Value, b: Value)
    requires ReadSpec(spec).None? || ReadSpec(spec).value.0 == []
    ensures CompareBySpec(h, spec, a, b) == Equal
  {
    hide ReadSpec, Directed, Nested;
  }

  lemma SpecAt(h: Host, spec: Value, a: Value, b: Value, field: Text, desc: bool)
    requires ReadSpec(spec) == Some((field, desc)) && field != []
    ensures CompareBySpec(h, spec, a, b) == Directed(h, desc, Nested(a, Split(field)), Nested(b, Split(field)))
  {
    hide ReadSpec, Directed, Nested, Split;
  }

  lemma FieldLaws(h: Host, desc: bool, x: Option<Value>, y: Option<Value>, z: Option<Value>)
    requires Decimal(h)
    ensures Directed(h, desc, y, x) == Flip(Directed(h, desc, x, y))
    ensures Directed(h, desc, x, y) != Greater && Directed(h, desc, y, z) != Greater ==> Directed(h, desc, x, z) != Greater
  {
    hide CompareValues, Decimal;
    CompareValuesLaws(h, x, y, z);
    CompareValuesLaws(h, z, y, x);
    CompareValuesLaws(h, x, z, z);
    CompareValuesLaws(h, y, z, z);
  }

  lemma CompareDocsStep(h: Host, specs: seq<Value>, a: Value, b: Value)
    requires specs != []
    ensures CompareDocs(h, specs, a, b)
         == var o := CompareBySpec(h, specs[0], a, b); if o != Equal then o else CompareDocs(h, specs[1..], a, b)
  {
    hide CompareBySpec;
  }

  lemma {:induction false} CompareDocsLaws(h: Host, specs: seq<Value>, a: Value, b: Value, c: Value)
    requires Decimal(h)
    ensures CompareDocs(h, specs, b, a) == Flip(CompareDocs(h, specs, a, b))
    ensures CompareDocs(h, specs, a, b) != Greater && CompareDocs(h, specs, b, c) != Greater
            ==> CompareDocs(h, specs, a, c) != Greater
  {
    if specs != [] {
      hide CompareBySpec, CompareDocs;
      CompareDocsStep(h, specs, a, b);
      CompareDocsStep(h, specs, b, a);
      CompareDocsStep(h, specs, b, c);
      CompareDocsStep(h, specs, a, c);
      CompareDocsLaws(h, specs[1..], a, b, c);
      SpecLaws(h, specs[0], a, b, c);
      SpecLaws(h, specs[0], b, c, a);
      SpecLaws(h, specs[0], c, a, b);
      SpecLaws(h, specs[0], c, b, a);
      SpecLaws(h, specs[0], a, c, b);
    }
  }

  /** Every `sort` array gives a total preorder, so top-N by it is deterministic. */
  lemma ComparatorPreorder(h: Host, specs: seq<Value>)
    requires Decimal(h)
    ensures Preorder((a, b) => CompareDocs(h, specs, a, b))
  {
    hide CompareDocs;
    forall a, b, c
      ensures CompareDocs(h, specs, b, a) == Flip(CompareDocs(h, specs, a, b))
      ensures CompareDocs(h, specs, a, b) != Greater && CompareDocs(h, specs, b, c) != Greater
              ==> CompareDocs(h, specs, a, c) != Greater
    {
      CompareDocsLaws(h, specs, a, b, c);
    }
  }

  // ----- Top-N by a sort array -----

  /** A matching document offered to the heap; an undecodable one is left out. */
  function Offer(col: Collection, keep: (Text, Bytes) -> bool, k: Text): Option<Value> {
    if k in col && keep(k, col[k]) then Decode(col[k]) else None
  }

  /** `scan_top_n` with the comparator of a `sort` array: under every division of the collection the
      winners are the first `cap` matching documents of the full sort. */
  method ScanTopN(h: Host, col: Collection, keep: (Text, Bytes) -> bool, specs: seq<Value>, cap: nat, p: Plan)
    returns (r: seq<Scored<Value>>)
    requires Decimal(h) && Partition(p) && PlanKeys(p) == col.Keys
    ensures var cmp := (a, b) => CompareDocs(h, specs, a, b);
            var all := Offered(col.Keys, k => Offer(col, keep, k));
            Preorder(cmp) && DistinctKeys(all) && r == Take(FullSort(cmp, all), cap)
  {
    hide CompareDocs, Offer, Decimal, Preorder;
    ComparatorPreorder(h, specs);
    r := Winners(p, k => Offer(col, keep, k), (a, b) => CompareDocs(h, specs, a, b), cap);
  }
}
