/** Projection and exclusion of dotted fields. */
module Projection {
  import opened Bytes
  import opened Json
  import opened Canonical
  import opened Walker
  import opened Where

  // ----- Paths -----

  lemma {:induction false} NestedConcat(d: Value, a: Path, b: Path)
    ensures Nested(d, a + b) == match Nested(d, a) case None => None case Some(x) => Nested(x, b)
    decreases |a|
  {
    if a == [] {
      assert a + b == b;
    } else if Get(d, a[0]).Some? {
      NestedConcat(Get(d, a[0]).value, a[1..], b);
      assert (a + b)[1..] == a[1..] + b;
    }
  }

  /** What lies at `q` is a value that is not an object. */
  predicate Leaf(d: Value, q: Path, x: Value) {
    Nested(d, q) == Some(x) && !x.Obj?
  }

  /** The path of a field entry; entries that are not strings are ignored. */
  function PathOf(field: Value): Option<Path> {
    if field.Str? then Some(Split(field.s)) else None
  }

  /** `q` lies at or below a listed field. */
  predicate Under(q: Path, fields: seq<Value>) {
    exists i :: 0 <= i < |fields| && PathOf(fields[i]).Some? && PathOf(fields[i]).value <= q
  }

  lemma UnderSnoc(q: Path, fields: seq<Value>)
    requires fields != []
    ensures Under(q, fields) <==>
              Under(q, fields[..|fields| - 1]) || (PathOf(fields[|fields| - 1]).Some? && PathOf(fields[|fields| - 1]).value <= q)
  {
    hide PathOf;
    var n := |fields| - 1;
    if Under(q, fields[..n]) {
      var i :| 0 <= i < n && PathOf(fields[..n][i]).Some? && PathOf(fields[..n][i]).value <= q;
      assert fields[i] == fields[..n][i];
    }
    if Under(q, fields) {
      var i :| 0 <= i < |fields| && PathOf(fields[i]).Some? && PathOf(fields[i]).value <= q;
      if i < n { assert fields[..n][i] == fields[i]; }
    }
  }

  // ----- Projection -----

  function FieldsOf(v: Option<Value>): seq<Field> {
    if v.Some? && v.value.Obj? then v.value.fields else []
  }

  /** `insert_nested_value`: a value that is not an object stops the descent. */
  function InsertNested(fs: seq<Field>, p: Path, v: Value): seq<Field>
    decreases |p|
  {
    if p == [] then fs
    else if |p| == 1 then Insert(fs, p[0], v)
    else
      var next := Lookup(fs, p[0]);
      if next.Some? && !next.value.Obj? then fs
      else Insert(fs, p[0], Obj(InsertNested(FieldsOf(next), p[1..], v)))
  }

  /** The fields collected after the listed ones have been looked up, in order. */
  function Projected(doc: Value, fields: seq<Value>): seq<Field> {
    if fields == [] then []
    else
      var acc := Projected(doc, fields[..|fields| - 1]);
      match PathOf(fields[|fields| - 1])
      case None => acc
      case Some(p) => match Nested(doc, p) case None => acc case Some(v) => InsertNested(acc, p, v)
  }

  function Project(doc: Value, fields: seq<Value>): Value {
    Obj(Projected(doc, fields))
  }

  /** Everything in `t` is in `d`: the same leaves, and objects where `d` has objects. */
  ghost predicate Within(t: Value, d: Value) {
    forall q | Nested(t, q).Some? ::
      Nested(d, q).Some? && if Nested(t, q).value.Obj? then Nested(d, q).value.Obj? else Nested(t, q) == Nested(d, q)
  }

  /** Nothing on the way to `p` blocks the descent. */
  predicate Open(fs: seq<Field>, p: Path)
    decreases |p|
  {
    |p| <= 1 || (match Lookup(fs, p[0]) case None => true case Some(x) => x.Obj? && Open(x.fields, p[1..]))
  }

  lemma OpenEmpty(p: Path)
    ensures Open([], p)
  {
  }

  /** Lookup after an insertion: below `p` the new value, beside `p` the old one, above `p` an object. */
  lemma {:induction false} InsertNestedLookup(fs: seq<Field>, p: Path, v: Value, q: Path)
    requires p != [] && Open(fs, p)
    ensures var r := Obj(InsertNested(fs, p, v));
            && (p <= q ==> Nested(r, q) == Nested(v, q[|p|..]))
            && (!(p <= q) && !(q <= p) ==> Nested(r, q) == Nested(Obj(fs), q))
            && (q <= p && q != p ==> Nested(r, q).Some? && Nested(r, q).value.Obj?)
    decreases |p|
  {
    hide Insert, Less, Nested, InsertNested, Lookup;
    var r := InsertNested(fs, p, v);
    if q == [] {
      NestedHere(Obj(r));
    } else {
      var next := Lookup(fs, p[0]);
      var inner := if |p| == 1 then v else Obj(InsertNested(FieldsOf(next), p[1..], v));
      InsertNestedStep(fs, p, v);
      LookupInsert(fs, p[0], inner, q[0]);
      NestedStep(r, q);
      NestedStep(fs, q);
      if q[0] != p[0] {
        assert !(p <= q) && !(q <= p);
      } else if |p| == 1 {
        assert q[|p|..] == q[1..];
        assert p <= q;
      } else {
        OpenStep(fs, p);
        PrefixTail(p, q);
        PrefixTail(q, p);
        InsertNestedLookup(FieldsOf(next), p[1..], v, q[1..]);
        assert p <= q ==> q[1..][|p[1..]|..] == q[|p|..];
        if next.None? && !(q[1..] <= p[1..]) { NothingBelow(q[1..]); }
      }
    }
  }

  lemma NestedHere(d: Value)
    ensures Nested(d, []) == Some(d)
  {
  }

  lemma NestedStep(fs: seq<Field>, q: Path)
    requires q != []
    ensures Nested(Obj(fs), q) == match Lookup(fs, q[0]) case None => None case Some(x) => Nested(x, q[1..])
  {
  }

  lemma InsertNestedStep(fs: seq<Field>, p: Path, v: Value)
    requires p != [] && Open(fs, p)
    ensures InsertNested(fs, p, v)
         == Insert(fs, p[0], if |p| == 1 then v else Obj(InsertNested(FieldsOf(Lookup(fs, p[0])), p[1..], v)))
  {
    hide Insert, Lookup;
  }

  lemma OpenStep(fs: seq<Field>, p: Path)
    requires |p| > 1 && Open(fs, p)
    ensures Open(FieldsOf(Lookup(fs, p[0])), p[1..])
    ensures Lookup(fs, p[0]).Some? ==> Lookup(fs, p[0]).value == Obj(FieldsOf(Lookup(fs, p[0])))
  {
    OpenEmpty(p[1..]);
  }

  lemma PrefixTail(a: Path, b: Path)
    requires a != [] && b != [] && a[0] == b[0]
    ensures a <= b <==> a[1..] <= b[1..]
    ensures a == b <==> a[1..] == b[1..]
  {
    assert a == [a[0]] + a[1..] && b == [b[0]] + b[1..];
  }

  lemma NothingBelow(q: Path)
    requires q != []
    ensures Nested(Obj([]), q) == None
  {
  }

  lemma WithinChild(fs: seq<Field>, d: Value, k: Text)
    requires Within(Obj(fs), d) && Lookup(fs, k).Some?
    ensures Get(d, k).Some? && Within(Lookup(fs, k).value, Get(d, k).value)
  {
    var x := Lookup(fs, k).value;
    assert [k][1..] == [];
    assert Nested(Obj(fs), [k]) == Some(x);
    forall q | Nested(x, q).Some?
      ensures Nested(Get(d, k).value, q).Some?
      ensures if Nested(x, q).value.Obj? then Nested(Get(d, k).value, q).value.Obj? else Nested(x, q) == Nested(Get(d, k).value, q)
    {
      assert ([k] + q)[1..] == q;
      assert Nested(Obj(fs), [k] + q) == Nested(x, q) && Nested(d, [k] + q) == Nested(Get(d, k).value, q);
    }
  }

  lemma {:induction false} WithinOpen(fs: seq<Field>, d: Value, p: Path)
    requires Within(Obj(fs), d) && Nested(d, p).Some?
    ensures Open(fs, p)
    decreases |p|
  {
    if |p| > 1 && Lookup(fs, p[0]).Some? {
      hide Within;
      WithinChild(fs, d, p[0]);
      var x := Lookup(fs, p[0]).value;
      WithinKind(x, Get(d, p[0]).value);
      WithinOpen(x.fields, Get(d, p[0]).value, p[1..]);
    }
  }

  lemma WithinKind(x: Value, d: Value)
    requires Within(x, d) && d.Obj?
    ensures x.Obj?
  {
    assert Nested(x, []) == Some(x);
  }

  /** What the document has at and below an inserted path. */
  lemma BelowPath(d: Value, p: Path, q: Path)
    requires Nested(d, p).Some?
    ensures p <= q ==> Nested(d, q) == Nested(Nested(d, p).value, q[|p|..])
    ensures q <= p && q != p ==> Nested(d, q).Some? && Nested(d, q).value.Obj?
  {
    if p <= q {
      assert q == p + q[|p|..];
      NestedConcat(d, p, q[|p|..]);
    } else if q <= p {
      assert p == q + p[|q|..];
      NestedConcat(d, q, p[|q|..]);
    }
  }

  lemma WithinInsert(fs: seq<Field>, d: Value, p: Path)
    requires Within(Obj(fs), d) && p != [] && Nested(d, p).Some?
    ensures Open(fs, p) && Within(Obj(InsertNested(fs, p, Nested(d, p).value)), d)
  {
    hide InsertNested, Nested, Open;
    WithinOpen(fs, d, p);
    var v := Nested(d, p).value;
    var r := Obj(InsertNested(fs, p, v));
    forall q | Nested(r, q).Some?
      ensures Nested(d, q).Some?
      ensures if Nested(r, q).value.Obj? then Nested(d, q).value.Obj? else Nested(r, q) == Nested(d, q)
    {
      InsertNestedLookup(fs, p, v, q);
      BelowPath(d, p, q);
    }
  }

  lemma EmptyWithin(d: Value)
    requires d.Obj?
    ensures Within(Obj([]), d)
  {
    forall q: Path | q != [] ensures Nested(Obj([]), q) == None { NothingBelow(q); }
    assert Nested(d, []) == Some(d);
  }

  lemma {:induction false} ProjectWithin(doc: Value, fields: seq<Value>)
    requires doc.Obj?
    ensures Within(Project(doc, fields), doc)
  {
    hide Within, InsertNested, Nested;
    if fields == [] {
      EmptyWithin(doc);
    } else {
      ProjectWithin(doc, fields[..|fields| - 1]);
      var f := PathOf(fields[|fields| - 1]);
      if f.Some? && Nested(doc, f.value).Some? {
        WithinInsert(Projected(doc, fields[..|fields| - 1]), doc, f.value);
      }
    }
  }

  /** A projection has exactly the leaves of the document at or below a listed field. */
  lemma {:induction false} ProjectLeaves(doc: Value, fields: seq<Value>, q: Path, x: Value)
    requires doc.Obj?
    ensures Leaf(Project(doc, fields), q, x) <==> Leaf(doc, q, x) && Under(q, fields)
  {
    hide Within, InsertNested, Under, Nested;
    if fields == [] {
      NoLeaves(q, x);
    } else {
      var rest := fields[..|fields| - 1];
      ProjectLeaves(doc, rest, q, x);
      UnderSnoc(q, fields);
      var f := PathOf(fields[|fields| - 1]);
      if f.Some? && Nested(doc, f.value).Some? {
        var p, acc := f.value, Projected(doc, rest);
        ProjectWithin(doc, rest);
        WithinInsert(acc, doc, p);
        InsertNestedLookup(acc, p, Nested(doc, p).value, q);
        BelowPath(doc, p, q);
        if q <= p && q != p { WithinLeaf(Obj(acc), doc, q, x); }
      } else if f.Some? {
        AbsentBelow(doc, f.value, q);
      }
    }
  }

  lemma NoLeaves(q: Path, x: Value)
    ensures !Leaf(Obj([]), q, x) && !Under(q, [])
  {
    if q != [] { NothingBelow(q); }
  }

  lemma WithinLeaf(t: Value, d: Value, q: Path, x: Value)
    requires Within(t, d)
    ensures Leaf(t, q, x) ==> Leaf(d, q, x)
  {
  }

  lemma AbsentBelow(d: Value, p: Path, q: Path)
    requires Nested(d, p) == None
    ensures p <= q ==> Nested(d, q) == None
  {
    if p <= q {
      assert q == p + q[|p|..];
      NestedConcat(d, p, q[|p|..]);
    }
  }

  // ----- Requested paths are copied whole -----

  lemma {:induction false} InsertSame(fs: seq<Field>, k: Text, v: Value)
    requires Ordered(fs) && Lookup(fs, k) == Some(v)
    ensures Insert(fs, k, v) == fs
  {
    if fs[0].key != k {
      hide Less;
      LookupKeys(fs[1..], k);
      var i := KeyAt(fs[1..], k);
      LessTrichotomy(fs[0].key, fs[i + 1].key);
      InsertSame(fs[1..], k, v);
    }
  }

  /** Inserting what is already there changes nothing. */
  lemma {:induction false} InsertNestedSame(fs: seq<Field>, p: Path, v: Value)
    requires WellOrdered(Obj(fs)) && Nested(Obj(fs), p) == Some(v)
    ensures InsertNested(fs, p, v) == fs
    decreases |p|
  {
    if |p| == 1 {
      assert p[1..] == [];
      InsertSame(fs, p[0], v);
    } else if |p| > 1 {
      var x := Lookup(fs, p[0]).value;
      assert x.Obj?;
      LookupWellOrdered(fs, p[0]);
      InsertNestedSame(x.fields, p[1..], v);
      InsertSame(fs, p[0], x);
    }
  }

  /** An object that is already complete at `q` survives an insertion below it. */
  lemma {:induction false} InsertKeeps(fs: seq<Field>, p: Path, v: Value, q: Path, w: Value)
    requires q <= p && q != p && Nested(Obj(fs), q) == Some(w) && WellOrdered(w) && Nested(w, p[|q|..]) == Some(v)
    ensures Nested(Obj(InsertNested(fs, p, v)), q) == Some(w)
    decreases |p|
  {
    if q == [] {
      assert p[|q|..] == p;
      InsertNestedSame(fs, p, v);
    } else {
      hide WellOrdered, Insert;
      var x := Lookup(fs, p[0]).value;
      assert q[0] == p[0] && p[1..][|q[1..]|..] == p[|q|..] && |p| > 1;
      PrefixTail(q, p);
      assert x.Obj? by { NestedObj(x, q[1..], w, p[|q|..], v); }
      InsertKeeps(x.fields, p[1..], v, q[1..], w);
      LookupInsert(fs, p[0], Obj(InsertNested(x.fields, p[1..], v)), p[0]);
    }
  }

  lemma NestedObj(x: Value, q: Path, w: Value, rest: Path, v: Value)
    requires Nested(x, q) == Some(w) && rest != [] && Nested(w, rest) == Some(v)
    ensures x.Obj?
  {
  }

  lemma {:induction false} NestedWellOrdered(d: Value, p: Path)
    requires WellOrdered(d) && Nested(d, p).Some?
    ensures WellOrdered(Nested(d, p).value)
    decreases |p|
  {
    if p != [] {
      LookupWellOrdered(d.fields, p[0]);
      NestedWellOrdered(Lookup(d.fields, p[0]).value, p[1..]);
    }
  }

  /** One more field inserted: a path that was copied whole still is. */
  lemma StaysWhole(fs: seq<Field>, d: Value, p: Path, q: Path)
    requires WellOrdered(d) && p != [] && Within(Obj(fs), d) && Nested(d, p).Some?
    requires Nested(d, q).Some? && (Nested(Obj(fs), q) == Nested(d, q) || q == p)
    ensures Nested(Obj(InsertNested(fs, p, Nested(d, p).value)), q) == Nested(d, q)
  {
    hide InsertNested, Nested, Within, WellOrdered;
    var v := Nested(d, p).value;
    WithinInsert(fs, d, p);
    InsertNestedLookup(fs, p, v, q);
    BelowPath(d, p, q);
    if q <= p && q != p {
      NestedWellOrdered(d, q);
      BelowPath(d, q, p);
      InsertKeeps(fs, p, v, q, Nested(d, q).value);
    }
  }

  /** A projection agrees with the document on every listed field, present or absent. */
  lemma {:induction false} ProjectAgrees(doc: Value, fields: seq<Value>, i: nat)
    requires doc.Obj? && WellOrdered(doc) && i < |fields| && PathOf(fields[i]).Some?
    ensures var p := PathOf(fields[i]).value; Nested(Project(doc, fields), p) == Nested(doc, p)
    decreases |fields|
  {
    hide Within, InsertNested, Nested, WellOrdered;
    var q := PathOf(fields[i]).value;
    if Nested(doc, q).None? {
      ProjectWithin(doc, fields);
      WithinAbsent(Project(doc, fields), doc, q);
    } else {
      var rest := fields[..|fields| - 1];
      var f := PathOf(fields[|fields| - 1]);
      if i < |rest| {
        assert rest[i] == fields[i];
        ProjectAgrees(doc, rest, i);
      }
      if f.Some? && Nested(doc, f.value).Some? {
        ProjectWithin(doc, rest);
        StaysWhole(Projected(doc, rest), doc, f.value, q);
      }
    }
  }

  lemma WithinAbsent(t: Value, d: Value, q: Path)
    requires Within(t, d) && Nested(d, q).None?
    ensures Nested(t, q) == None
  {
  }

  lemma {:induction false} ProjectDepends(a: Value, b: Value, fields: seq<Value>)
    requires forall i | 0 <= i < |fields| && PathOf(fields[i]).Some? :: Nested(a, PathOf(fields[i]).value) == Nested(b, PathOf(fields[i]).value)
    ensures Projected(a, fields) == Projected(b, fields)
  {
    hide Nested, PathOf, InsertNested;
    if fields != [] {
      var rest := fields[..|fields| - 1];
      assert forall i | 0 <= i < |rest| :: rest[i] == fields[i];
      ProjectDepends(a, b, rest);
    }
  }

  /** Projecting twice is projecting once. */
  lemma ProjectIdempotent(doc: Value, fields: seq<Value>)
    requires doc.Obj? && WellOrdered(doc)
    ensures Project(Project(doc, fields), fields) == Project(doc, fields)
  {
    hide Nested, Projected, PathOf;
    forall i | 0 <= i < |fields| && PathOf(fields[i]).Some?
      ensures Nested(Project(doc, fields), PathOf(fields[i]).value) == Nested(doc, PathOf(fields[i]).value)
    {
      ProjectAgrees(doc, fields, i);
    }
    ProjectDepends(Project(doc, fields), doc, fields);
  }

  /** `project`. */
  method ProjectDoc(doc: Value, fields: seq<Value>) returns (r: Value)
    ensures r == Project(doc, fields)
  {
    hide Nested, InsertNested, Split;
    var filtered: seq<Field> := [];
    for n := 0 to |fields|
      invariant filtered == Projected(doc, fields[..n])
    {
      assert fields[..n + 1][..n] == fields[..n];
      if fields[n].Str? {
        var parts := Split(fields[n].s);
        var v := Nested(doc, parts);
        if v.Some? { filtered := InsertNested(filtered, parts, v.value); }
      }
    }
    assert fields[..|fields|] == fields;
    r := Obj(filtered);
  }

  // ----- Exclusion -----

  /** `remove_nested_value`: an object left empty on the way is removed as well. */
  function RemoveNested(fs: seq<Field>, p: Path): seq<Field>
    decreases |p|
  {
    if p == [] then fs
    else if |p| == 1 then Remove(fs, p[0])
    else
      match Lookup(fs, p[0])
      case None => fs
      case Some(child) =>
        if !child.Obj? then fs
        else
          var left := RemoveNested(child.fields, p[1..]);
          if left == [] then Remove(fs, p[0]) else Insert(fs, p[0], Obj(left))
  }

  function Excluded(fs: seq<Field>, fields: seq<Value>): seq<Field> {
    if fields == [] then fs
    else
      var acc := Excluded(fs, fields[..|fields| - 1]);
      match PathOf(fields[|fields| - 1]) case None => acc case Some(p) => RemoveNested(acc, p)
  }

  /** `exclude`: a value that is not an object is returned as it is. */
  function Exclude(doc: Value, fields: seq<Value>): Value {
    if doc.Obj? then Obj(Excluded(doc.fields, fields)) else doc
  }

  lemma {:induction false} RemoveWellOrdered(fs: seq<Field>, k: Text)
    requires FieldsWellOrdered(fs)
    ensures FieldsWellOrdered(Remove(fs, k))
  {
    if fs != [] && fs[0].key != k {
      RemoveWellOrdered(fs[1..], k);
      assert Remove(fs, k)[1..] == Remove(fs[1..], k);
    }
  }

  lemma {:induction false} RemoveNestedWellOrdered(fs: seq<Field>, p: Path)
    requires WellOrdered(Obj(fs))
    ensures WellOrdered(Obj(RemoveNested(fs, p)))
    decreases |p|
  {
    hide Less, Insert, Remove;
    if p != [] {
      RemoveLaws(fs, p[0], p[0]);
      RemoveWellOrdered(fs, p[0]);
      if |p| > 1 && Lookup(fs, p[0]).Some? && Lookup(fs, p[0]).value.Obj? {
        var child := Lookup(fs, p[0]).value;
        LookupWellOrdered(fs, p[0]);
        RemoveNestedWellOrdered(child.fields, p[1..]);
        var left := Obj(RemoveNested(child.fields, p[1..]));
        InsertLaws(fs, p[0], left);
        InsertWellOrdered(fs, p[0], left);
      }
    }
  }

  lemma {:induction false} ExcludedWellOrdered(fs: seq<Field>, fields: seq<Value>)
    requires WellOrdered(Obj(fs))
    ensures WellOrdered(Obj(Excluded(fs, fields)))
  {
    hide WellOrdered, RemoveNested;
    if fields != [] {
      ExcludedWellOrdered(fs, fields[..|fields| - 1]);
      var f := PathOf(fields[|fields| - 1]);
      if f.Some? { RemoveNestedWellOrdered(Excluded(fs, fields[..|fields| - 1]), f.value); }
    }
  }

  /** What one removal leaves under a key. */
  lemma RemoveNestedAt(fs: seq<Field>, p: Path, k: Text)
    requires Ordered(fs) && p != []
    ensures Lookup(RemoveNested(fs, p), k)
         == if k != p[0] || Lookup(fs, k).None? then Lookup(fs, k)
            else if |p| == 1 then None
            else if !Lookup(fs, k).value.Obj? then Lookup(fs, k)
            else var left := RemoveNested(Lookup(fs, k).value.fields, p[1..]); if left == [] then None else Some(Obj(left))
  {
    hide Less, Insert, Remove;
    RemoveLaws(fs, p[0], k);
    if |p| > 1 && Lookup(fs, p[0]).Some? && Lookup(fs, p[0]).value.Obj? {
      LookupInsert(fs, p[0], Obj(RemoveNested(Lookup(fs, p[0]).value.fields, p[1..])), k);
    }
  }

  /** One removal takes away exactly the leaves at or below the path, and the path itself; it adds
      nothing. */
  lemma {:induction false} RemoveNestedLookup(fs: seq<Field>, p: Path, q: Path, x: Value)
    requires WellOrdered(Obj(fs)) && p != []
    ensures Leaf(Obj(RemoveNested(fs, p)), q, x) <==> Leaf(Obj(fs), q, x) && !(p <= q)
    ensures Nested(Obj(RemoveNested(fs, p)), p) == None
    ensures Nested(Obj(RemoveNested(fs, p)), q).Some? ==> Nested(Obj(fs), q).Some?
    decreases |p|
  {
    hide RemoveNested, Lookup, Less;
    RemoveNestedAt(fs, p, p[0]);
    if q != [] { RemoveNestedAt(fs, p, q[0]); }
    var child := Lookup(fs, p[0]);
    if |p| > 1 && child.Some? && child.value.Obj? {
      LookupWellOrdered(fs, p[0]);
      if q != [] && q[0] == p[0] {
        RemoveNestedLookup(child.value.fields, p[1..], q[1..], x);
        PrefixTail(p, q);
        NoLeaves(q[1..], x);
      } else {
        RemoveNestedLookup(child.value.fields, p[1..], [], x);
      }
    } else if |p| == 1 && q != [] {
      assert p <= q <==> q[0] == p[0];
    } else {
      if p <= q && child.Some? {
        assert q[0] == p[0] && q[1..] != [];
        assert Nested(child.value, q[1..]) == None;
      }
    }
  }

  /** An exclusion keeps exactly the leaves that are not at or below a listed field. */
  lemma {:induction false} ExcludeLeaves(doc: Value, fields: seq<Value>, q: Path, x: Value)
    requires doc.Obj? && WellOrdered(doc)
    ensures Leaf(Exclude(doc, fields), q, x) <==> Leaf(doc, q, x) && !Under(q, fields)
  {
    hide WellOrdered, RemoveNested, Under, Nested;
    if fields == [] {
      NoLeaves(q, x);
    } else {
      var rest := fields[..|fields| - 1];
      ExcludeLeaves(doc, rest, q, x);
      ExcludedWellOrdered(doc.fields, rest);
      UnderSnoc(q, fields);
      var f := PathOf(fields[|fields| - 1]);
      if f.Some? { RemoveNestedLookup(Excluded(doc.fields, rest), f.value, q, x); }
    }
  }

  /** Every listed field is gone. */
  lemma {:induction false} ExcludeRemoves(doc: Value, fields: seq<Value>, i: nat)
    requires doc.Obj? && WellOrdered(doc) && i < |fields| && PathOf(fields[i]).Some?
    ensures Nested(Exclude(doc, fields), PathOf(fields[i]).value) == None
    decreases |fields|
  {
    hide WellOrdered, RemoveNested, Nested;
    var rest := fields[..|fields| - 1];
    var q := PathOf(fields[i]).value;
    ExcludedWellOrdered(doc.fields, rest);
    var f := PathOf(fields[|fields| - 1]);
    if i < |rest| {
      assert rest[i] == fields[i];
      ExcludeRemoves(doc, rest, i);
    }
    if f.Some? { RemoveNestedLookup(Excluded(doc.fields, rest), f.value, q, Null); }
  }

  /** `exclude`. */
  method ExcludeDoc(doc: Value, fields: seq<Value>) returns (r: Value)
    ensures r == Exclude(doc, fields)
  {
    hide RemoveNested, Split;
    if !doc.Obj? { return doc; }
    var result := doc.fields;
    for n := 0 to |fields|
      invariant result == Excluded(doc.fields, fields[..n])
    {
      assert fields[..n + 1][..n] == fields[..n];
      if fields[n].Str? { result := RemoveNested(result, Split(fields[n].s)); }
    }
    assert fields[..|fields|] == fields;
    r := Obj(result);
  }

  /** Projection and exclusion of the same fields divide the leaves of a document between them. */
  lemma ProjectExcludePartition(doc: Value, fields: seq<Value>, q: Path, x: Value)
    requires doc.Obj? && WellOrdered(doc) && Leaf(doc, q, x)
    ensures Leaf(Project(doc, fields), q, x) <==> !Leaf(Exclude(doc, fields), q, x)
  {
    hide WellOrdered, Nested, Under, Project, Exclude;
    ProjectLeaves(doc, fields, q, x);
    ExcludeLeaves(doc, fields, q, x);
  }
}
