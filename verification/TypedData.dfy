/** The struct types an EIP-712 type depends on, and the type string built from them: recto/ethereum.py:502-543. */
module TypedData {
  import opened Wrappers

  datatype Field = Field(typ: string, name: string)

  type Schema = map<string, seq<Field>>

  /** The text before the first `c`, or all of it when there is none. */
  function Before(text: string, c: char): (b: string)
    ensures b <= text && c !in b
    ensures |b| < |text| ==> text[|b|] == c
  {
    if |text| == 0 || text[0] == c then "" else [text[0]] + Before(text[1..], c)
  }

  lemma {:induction false} BeforeIs(head: string, c: char, rest: string)
    requires c !in head
    ensures Before(head, c) == head && Before(head + [c] + rest, c) == head
  {
    if |head| > 0 {
      assert c !in head[1..] by {
        assert forall d <- head[1..] :: d in head;
      }
      BeforeIs(head[1..], c, rest);
      assert (head + [c] + rest)[1..] == head[1..] + [c] + rest;
      assert head == [head[0]] + head[1..] && head[0] in head;
    }
  }

  /** The type name without its array brackets. */
  function Base(typ: string): string {
    Before(typ, '[')
  }

  // ------------------------------------------------------------------ reachability, independently of the walk

  ghost predicate Refers(types: Schema, a: string, b: string) {
    a in types && b in types && exists i :: 0 <= i < |types[a]| && Base(types[a][i].typ) == b
  }

  ghost predicate Path(types: Schema, path: seq<string>) {
    |path| > 0 && path[0] in types && forall i | 0 <= i < |path| - 1 :: Refers(types, path[i], path[i + 1])
  }

  ghost predicate Reaches(types: Schema, a: string, b: string) {
    exists path :: Path(types, path) && path[0] == a && path[|path| - 1] == b
  }

  /** The struct types reachable from the type's base, the base itself included. */
  ghost function Dependencies(types: Schema, typ: string): set<string> {
    set t | t in types && Reaches(types, Base(typ), t)
  }

  lemma ReachesSelf(types: Schema, a: string)
    requires a in types
    ensures Reaches(types, a, a)
  {
    assert Path(types, [a]);
  }

  lemma ReachesThrough(types: Schema, a: string, b: string, c: string)
    requires Refers(types, a, b) && Reaches(types, b, c)
    ensures Reaches(types, a, c)
  {
    var path :| Path(types, path) && path[0] == b && path[|path| - 1] == c;
    var longer := [a] + path;
    forall i | 0 <= i < |longer| - 1
      ensures Refers(types, longer[i], longer[i + 1])
    {
      if i > 0 {
        assert longer[i] == path[i - 1] && longer[i + 1] == path[i];
      }
    }
    assert Path(types, longer) && longer[0] == a && longer[|longer| - 1] == c;
  }

  /** A set that holds every struct its structs refer to. */
  ghost predicate ClosedUnder(types: Schema, inside: set<string>, found: set<string>) {
    forall a, b | a in inside && Refers(types, a, b) :: b in found
  }

  lemma {:induction false} ClosedHoldsPath(types: Schema, found: set<string>, path: seq<string>, n: nat)
    requires ClosedUnder(types, found, found) && Path(types, path) && path[0] in found && n < |path|
    ensures path[n] in found
  {
    if n > 0 {
      ClosedHoldsPath(types, found, path, n - 1);
      assert Refers(types, path[n - 1], path[n - 1 + 1]);
    }
  }

  lemma PathEndsInside(types: Schema, a: string, b: string)
    requires Reaches(types, a, b)
    ensures a in types && b in types
  {
    var path :| Path(types, path) && path[0] == a && path[|path| - 1] == b;
    if |path| > 1 {
      assert Refers(types, path[|path| - 2], path[|path| - 2 + 1]);
    }
  }

  // ------------------------------------------------------------------ the walk

  class Walk {
    const types: Schema
    /** Shared by every call of one walk. */
    var found: set<string>

    constructor (types: Schema)
      ensures this.types == types && found == {}
    {
      this.types := types;
      found := {};
    }

    /** Adds what the type reaches, and terminates on any schema, cycles included: each call that goes deeper has one
        struct fewer left to find. */
    method Visit(typ: string)
      modifies this
      ensures old(found) <= found && (Base(typ) in types ==> Base(typ) in found)
      ensures forall t <- found - old(found) :: Reaches(types, Base(typ), t)
      ensures ClosedUnder(types, found - old(found), found)
      decreases types.Keys - found
    {
      hide Base, Reaches, ClosedUnder;
      NothingNew(types, found - found, found);
      var name := Base(typ);
      if name in found || name !in types {
        return;
      }
      ghost var start := found;
      found := found + {name};
      ReachesSelf(types, name);
      NothingNew(types, found - start - {name}, found);
      for i := 0 to |types[name]|
        invariant start + {name} <= found
        invariant forall t <- found - start :: Reaches(types, name, t)
        invariant ClosedUnder(types, found - start - {name}, found)
        invariant forall j | 0 <= j < i :: Base(types[name][j].typ) in types ==> Base(types[name][j].typ) in found
      {
        var field := types[name][i];
        ghost var before := found;
        Visit(field.typ);
        if Base(field.typ) in types {
          assert Refers(types, name, Base(field.typ));
          forall t | t in found - before
            ensures Reaches(types, name, t)
          {
            ReachesThrough(types, name, Base(field.typ), t);
          }
        }
        NewReached(types, before, found, Base(field.typ));
        assert before - (start + {name}) == before - start - {name};
        StaysClosed(types, start + {name}, before, found);
        assert found - (start + {name}) == found - start - {name};
      }
      ClosesOver(types, name, start, found);
    }
  }

  lemma NothingNew(types: Schema, inside: set<string>, found: set<string>)
    requires inside == {}
    ensures ClosedUnder(types, inside, found)
  {
  }

  lemma NewReached(types: Schema, before: set<string>, after: set<string>, name: string)
    requires forall t <- after - before :: Reaches(types, name, t)
    ensures name !in types ==> after - before == {}
  {
    if name !in types {
      forall t | t in after - before
        ensures false
      {
        PathEndsInside(types, name, t);
      }
    }
  }

  lemma StaysClosed(types: Schema, start: set<string>, before: set<string>, after: set<string>)
    requires start <= before <= after
    requires ClosedUnder(types, before - start, before) && ClosedUnder(types, after - before, after)
    ensures ClosedUnder(types, after - start, after)
  {
    forall a, b | a in after - start && Refers(types, a, b)
      ensures b in after
    {
      if a in before {
        assert a in before - start;
      } else {
        assert a in after - before;
      }
    }
  }

  lemma ClosesOver(types: Schema, name: string, start: set<string>, found: set<string>)
    requires name in types && ClosedUnder(types, found - start - {name}, found)
    requires forall j | 0 <= j < |types[name]| ::
               Base(types[name][j].typ) in types ==> Base(types[name][j].typ) in found
    ensures ClosedUnder(types, found - start, found)
  {
    forall a, b | a in found - start && Refers(types, a, b)
      ensures b in found
    {
      if a != name {
        assert a in found - start - {name};
      } else {
        var i :| 0 <= i < |types[a]| && Base(types[a][i].typ) == b;
      }
    }
  }

  method FindTypeDependencies(typ: string, types: Schema) returns (deps: set<string>)
    ensures deps == Dependencies(types, typ)
  {
    hide Base, Refers, Reaches, ClosedUnder;
    var walk := new Walk(types);
    walk.Visit(typ);
    deps := walk.found;
    assert deps - {} == deps;
    forall t
      ensures t in deps <==> t in types && Reaches(types, Base(typ), t)
    {
      if t in deps {
        PathEndsInside(types, Base(typ), t);
      }
      if t in types && Reaches(types, Base(typ), t) {
        PathEndsInside(types, Base(typ), t);
        HoldsReached(types, deps, Base(typ), t);
      }
    }
  }

  lemma HoldsReached(types: Schema, found: set<string>, a: string, b: string)
    requires ClosedUnder(types, found, found) && a in found && Reaches(types, a, b)
    ensures b in found
  {
    var path :| Path(types, path) && path[0] == a && path[|path| - 1] == b;
    ClosedHoldsPath(types, found, path, |path| - 1);
  }

  // ------------------------------------------------------------------ the type string

  /** Python compares strings by code point. */
  predicate Below(a: string, b: string) {
    if |b| == 0 then false
    else if |a| == 0 then true
    else if a[0] != b[0] then a[0] < b[0]
    else Below(a[1..], b[1..])
  }

  lemma {:induction false} BelowTotal(a: string, b: string)
    ensures a != b ==> Below(a, b) || Below(b, a)
    ensures !(Below(a, b) && Below(b, a)) && !Below(a, a)
  {
    if |a| > 0 && |b| > 0 && a[0] == b[0] {
      BelowTotal(a[1..], b[1..]);
      assert a == [a[0]] + a[1..] && b == [b[0]] + b[1..];
    }
    if |a| > 0 {
      BelowSelf(a);
    }
  }

  lemma {:induction false} BelowSelf(a: string)
    ensures !Below(a, a)
  {
    if |a| > 0 {
      BelowSelf(a[1..]);
    }
  }

  lemma {:induction false} BelowTrans(a: string, b: string, c: string)
    requires Below(a, b) && Below(b, c)
    ensures Below(a, c)
  {
    if |a| > 0 && a[0] == b[0] && b[0] == c[0] {
      BelowTrans(a[1..], b[1..], c[1..]);
    }
  }

  /** a and b agree up to position k, and there a has the smaller character. */
  predicate LessAt(a: string, b: string, k: nat) {
    k < |a| && k < |b| && a[..k] == b[..k] && a[k] < b[k]
  }

  lemma SameStart(a: string, b: string, k: nat)
    ensures k > 0 && LessAt(a, b, k) ==> a[0] == b[0]
  {
    if k > 0 && LessAt(a, b, k) {
      assert a[..k][0] == b[..k][0];
    }
  }

  /** The dictionary order: a proper prefix comes first, and otherwise the first difference decides. */
  lemma {:induction false} BelowExactly(a: string, b: string)
    ensures Below(a, b) <==> (a <= b && |a| < |b|) || exists k: nat :: LessAt(a, b, k)
  {
    if |a| > 0 && |b| > 0 {
      if a[0] == b[0] {
        BelowExactly(a[1..], b[1..]);
        assert a == [a[0]] + a[1..] && b == [b[0]] + b[1..];
        if k: nat :| LessAt(a, b, k) {
          assert a[..k][1..] == a[1..][..k - 1] && b[..k][1..] == b[1..][..k - 1];
          assert LessAt(a[1..], b[1..], k - 1);
        }
        if k: nat :| LessAt(a[1..], b[1..], k) {
          assert a[..k + 1] == [a[0]] + a[1..][..k] && b[..k + 1] == [b[0]] + b[1..][..k];
          assert LessAt(a, b, k + 1);
        }
      } else {
        assert a[..0] == b[..0];
        assert LessAt(a, b, 0) <==> a[0] < b[0];
        forall k: nat
          ensures LessAt(a, b, k) ==> k == 0
        {
          SameStart(a, b, k);
        }
      }
    }
  }

  ghost predicate Ascending(list: seq<string>) {
    forall i, j | 0 <= i < j < |list| :: Below(list[i], list[j])
  }

  /** `list` is the set in order, each once. */
  ghost predicate Lists(list: seq<string>, s: set<string>) {
    Ascending(list) && forall t :: t in list <==> t in s
  }

  /** There is one way to list a set: nothing depends on the order its elements came in. */
  lemma {:induction false} OneListing(a: seq<string>, b: seq<string>, s: set<string>)
    requires Lists(a, s) && Lists(b, s)
    ensures a == b
    decreases |a|
  {
    assert |b| > 0 ==> b[0] in b && b[0] in a;
    if |a| > 0 {
      assert a[0] in a && a[0] in b;
      SameHead(a, b);
      TailLists(a, s);
      TailLists(b, s);
      OneListing(a[1..], b[1..], s - {a[0]});
      assert a == [a[0]] + a[1..] && b == [b[0]] + b[1..];
    }
  }

  lemma SameHead(a: seq<string>, b: seq<string>)
    requires |a| > 0 && |b| > 0 && Ascending(a) && Ascending(b) && a[0] in b && b[0] in a
    ensures a[0] == b[0]
  {
    var i :| 0 <= i < |a| && a[i] == b[0];
    var j :| 0 <= j < |b| && b[j] == a[0];
    BelowTotal(a[0], b[0]);
  }

  lemma TailLists(list: seq<string>, s: set<string>)
    requires |list| > 0 && Lists(list, s)
    ensures Lists(list[1..], s - {list[0]})
  {
    forall t
      ensures t in list[1..] <==> t in s - {list[0]}
    {
      assert t in list <==> t == list[0] || t in list[1..];
      if t in list[1..] {
        var i :| 0 <= i < |list[1..]| && list[1..][i] == t;
        assert Below(list[0], list[i + 1]);
        BelowSelf(t);
      }
    }
  }

  /** Python's sorted() on a set: insertion of one element at a time. */
  method SortSet(s: set<string>) returns (list: seq<string>)
    ensures Lists(list, s)
  {
    list := [];
    var rest := s;
    while rest != {}
      invariant rest <= s && Lists(list, s - rest)
      decreases rest
    {
      var t :| t in rest;
      list := InsertSorted(list, s - rest, t);
      rest := rest - {t};
      assert s - rest == s - (rest + {t}) + {t};
    }
    assert s - {} == s;
  }

  method InsertSorted(list: seq<string>, s: set<string>, t: string) returns (longer: seq<string>)
    requires Lists(list, s) && t !in s
    ensures Lists(longer, s + {t})
  {
    var n := 0;
    while n < |list| && Below(list[n], t)
      invariant n <= |list| && forall i | 0 <= i < n :: Below(list[i], t)
    {
      n := n + 1;
    }
    longer := list[..n] + [t] + list[n..];
    InsertedLists(list, s, t, n);
  }

  lemma InsertedLists(list: seq<string>, s: set<string>, t: string, n: nat)
    requires Lists(list, s) && t !in s && n <= |list|
    requires (forall i | 0 <= i < n :: Below(list[i], t)) && (n < |list| ==> !Below(list[n], t))
    ensures Lists(list[..n] + [t] + list[n..], s + {t})
  {
    var longer := list[..n] + [t] + list[n..];
    forall i | n <= i < |list|
      ensures Below(t, list[i])
    {
      assert list[n] in list;
      BelowTotal(t, list[n]);
      if i > n {
        BelowTrans(t, list[n], list[i]);
      }
    }
    forall i, j | 0 <= i < j < |longer|
      ensures Below(longer[i], longer[j])
    {
      if i < n && j > n {
        assert longer[i] == list[i] && longer[j] == list[j - 1];
      }
    }
    forall x
      ensures x in longer <==> x in s + {t}
    {
      assert list == list[..n] + list[n..];
      assert x in list <==> x in list[..n] || x in list[n..];
    }
  }

  function FieldsText(fields: seq<Field>): string {
    if |fields| == 0 then ""
    else if |fields| == 1 then fields[0].typ + " " + fields[0].name
    else fields[0].typ + " " + fields[0].name + "," + FieldsText(fields[1..])
  }

  function PartsText(names: seq<string>, types: Schema): string
    requires forall t <- names :: t in types
  {
    if |names| == 0 then ""
    else
      PartsText(names[..|names| - 1], types) +
      names[|names| - 1] + "(" + FieldsText(types[names[|names| - 1]]) + ")"
  }

  /** The type string: the primary type first, then everything else it reaches in order, each once; an error exactly
      when the primary type is not in the schema. */
  method EncodeType(primary: string, types: Schema) returns (r: Result<string>, ghost rest: seq<string>)
    ensures r.Err? <==> primary !in types
    ensures Lists(rest, Dependencies(types, primary) - {primary})
    ensures (forall t <- rest :: t in types) && (r.Ok? ==> r.value == PartsText([primary] + rest, types))
  {
    hide Dependencies, Below;
    var deps := FindTypeDependencies(primary, types);
    InSchema(types, primary);
    var sorted := SortSet(deps - {primary});
    rest := sorted;
    var names := [primary] + sorted;
    assert forall t <- names :: t == primary || t in deps;
    if primary !in types {
      return Err, rest;
    }
    var text := "";
    for i := 0 to |names|
      invariant text == PartsText(names[..i], types)
    {
      assert names[..i + 1][..i] == names[..i];
      text := text + names[i] + "(" + FieldsText(types[names[i]]) + ")";
    }
    assert names[..|names|] == names;
    return Ok(text), rest;
  }

  lemma InSchema(types: Schema, typ: string)
    ensures Dependencies(types, typ) <= types.Keys
  {
  }

  // ------------------------------------------------------------------ reading a type string back

  /** A type, a space, a name. */
  function ReadField(text: string): Field {
    var typ := Before(text, ' ');
    Field(typ, if |typ| == |text| then "" else text[|typ| + 1..])
  }

  function ReadFields(text: string): seq<Field> {
    if |text| == 0 then []
    else
      var one := Before(text, ',');
      [ReadField(one)] + if |one| == |text| then [] else ReadFields(text[|one| + 1..])
  }

  /** The structs a type string lists, each with its fields. */
  function ReadType(text: string): seq<(string, seq<Field>)> {
    var name := Before(text, '(');
    if |name| == |text| then []
    else
      var rest := text[|name| + 1..];
      var inside := Before(rest, ')');
      [(name, ReadFields(inside))] + if |inside| == |rest| then [] else ReadType(rest[|inside| + 1..])
  }

  /** No type holds a space, a comma or a closing parenthesis, and no field name a comma or a closing parenthesis. */
  predicate PlainFields(fields: seq<Field>) {
    forall f <- fields :: ' ' !in f.typ && ',' !in f.typ && ')' !in f.typ && ',' !in f.name && ')' !in f.name
  }

  lemma FieldRead(f: Field)
    requires ' ' !in f.typ
    ensures ReadField(f.typ + " " + f.name) == f
  {
    BeforeIs(f.typ, ' ', f.name);
    assert f.typ + " " + f.name == f.typ + [' '] + f.name;
  }

  lemma {:induction false} FieldsRead(fields: seq<Field>)
    requires PlainFields(fields)
    ensures ReadFields(FieldsText(fields)) == fields && ')' !in FieldsText(fields)
  {
    hide Before, ReadField;
    if |fields| > 0 {
      var one := fields[0].typ + " " + fields[0].name;
      FieldRead(fields[0]);
      if |fields| == 1 {
        BeforeIs(one, ',', "");
      } else {
        var rest := FieldsText(fields[1..]);
        FieldsRead(fields[1..]);
        BeforeIs(one, ',', rest);
        FieldsJoin(one, rest);
      }
    }
  }

  lemma FieldsJoin(one: string, rest: string)
    requires Before(one + [','] + rest, ',') == one
    ensures ReadFields(one + "," + rest) == [ReadField(one)] + ReadFields(rest)
  {
    hide Before, ReadField;
    assert one + "," + rest == one + [','] + rest;
    assert (one + "," + rest)[|one| + 1..] == rest;
  }

  lemma {:induction false} PartsFirst(names: seq<string>, types: Schema)
    requires |names| > 0 && forall t <- names :: t in types
    ensures PartsText(names, types)
         == names[0] + "(" + FieldsText(types[names[0]]) + ")" + PartsText(names[1..], types)
  {
    hide FieldsText;
    var n := |names| - 1;
    assert PartsText([], types) == "";
    if n == 0 {
      assert names[..0] == [] && names[1..] == [];
    } else {
      var last := names[n] + "(" + FieldsText(types[names[n]]) + ")";
      var middle := names[1..];
      assert middle[..n - 1] == names[..n][1..] && middle[n - 1] == names[n];
      assert PartsText(middle, types) == PartsText(middle[..n - 1], types) + last;
      assert PartsText(names, types) == PartsText(names[..n], types) + last;
      PartsFirst(names[..n], types);
    }
  }

  ghost predicate PlainSchema(types: Schema) {
    forall t <- types :: '(' !in t && PlainFields(types[t])
  }

  /** The structs of those names, each with its fields. */
  function Structs(names: seq<string>, types: Schema): (r: seq<(string, seq<Field>)>)
    requires forall t <- names :: t in types
    ensures |r| == |names| && forall i | 0 <= i < |names| :: r[i] == (names[i], types[names[i]])
  {
    if |names| == 0 then [] else [(names[0], types[names[0]])] + Structs(names[1..], types)
  }

  /** A type string reads back as the structs it was built from: their names, and of every field first its type and then
      its name, in order. */
  lemma {:induction false} TypeRead(names: seq<string>, types: Schema)
    requires PlainSchema(types) && forall t <- names :: t in types
    ensures ReadType(PartsText(names, types)) == Structs(names, types)
  {
    hide Before, ReadFields, ReadType, FieldsText, PlainFields, PartsText;
    if |names| == 0 {
      NoParts(types);
    } else {
      PartsFirst(names, types);
      TypeRead(names[1..], types);
      FieldsRead(types[names[0]]);
      PartRead(names[0], FieldsText(types[names[0]]), PartsText(names[1..], types));
    }
  }

  lemma NoParts(types: Schema)
    ensures PartsText([], types) == "" && ReadType("") == []
  {
  }

  lemma PartRead(name: string, inside: string, rest: string)
    requires '(' !in name && ')' !in inside
    ensures ReadType(name + "(" + inside + ")" + rest) == [(name, ReadFields(inside))] + ReadType(rest)
  {
    hide Before, ReadFields;
    var text, tail := name + "(" + inside + ")" + rest, inside + [')'] + rest;
    assert text == name + ['('] + tail;
    BeforeIs(name, '(', tail);
    assert text[|name| + 1..] == tail;
    BeforeIs(inside, ')', rest);
    assert tail[|inside| + 1..] == rest;
  }

  /** One type string, one list of structs: schemas that spell it alike name the same structs with the same fields. */
  lemma OneMeaning(a: seq<string>, types: Schema, b: seq<string>, others: Schema)
    requires PlainSchema(types) && PlainSchema(others)
    requires (forall t <- a :: t in types) && (forall t <- b :: t in others)
    requires PartsText(a, types) == PartsText(b, others)
    ensures a == b && forall t <- a :: types[t] == others[t]
  {
    hide PartsText, ReadType, PlainSchema;
    TypeRead(a, types);
    TypeRead(b, others);
    var x, y := Structs(a, types), Structs(b, others);
    forall i | 0 <= i < |a|
      ensures a[i] == b[i] && types[a[i]] == others[b[i]]
    {
      assert x[i] == y[i];
    }
  }

  /** Nothing checks the names: a space in a type makes two schemas spell alike. */
  lemma SpacedTypesCollide()
    ensures PartsText(["A"], map["A" := [Field("int b", "c")]]) == PartsText(["A"], map["A" := [Field("int", "b c")]])
  {
    assert ["A"][..0] == [];
    assert "int b" + " " + "c" == "int" + " " + "b c";
  }

  function FieldTypes(fields: seq<Field>): set<string> {
    set i | 0 <= i < |fields| :: fields[i].typ
  }

  /** Reordering, repeating or renaming fields leaves the dependencies what they are. */
  lemma FieldOrderFree(a: Schema, b: Schema, typ: string)
    requires a.Keys == b.Keys
    requires forall t <- a :: FieldTypes(a[t]) == FieldTypes(b[t])
    ensures Dependencies(a, typ) == Dependencies(b, typ)
  {
    forall t
      ensures t in Dependencies(a, typ) <==> t in Dependencies(b, typ)
    {
      if t in Dependencies(a, typ) {
        SamePaths(a, b, Base(typ), t);
      }
      if t in Dependencies(b, typ) {
        SamePaths(b, a, Base(typ), t);
      }
    }
  }

  lemma SamePaths(a: Schema, b: Schema, from: string, to: string)
    requires a.Keys == b.Keys && Reaches(a, from, to)
    requires forall t <- a :: FieldTypes(a[t]) == FieldTypes(b[t])
    ensures Reaches(b, from, to)
  {
    var path :| Path(a, path) && path[0] == from && path[|path| - 1] == to;
    forall k | 0 <= k < |path| - 1
      ensures Refers(b, path[k], path[k + 1])
    {
      assert Refers(a, path[k], path[k + 1]);
      var i :| 0 <= i < |a[path[k]]| && Base(a[path[k]][i].typ) == path[k + 1];
      assert a[path[k]][i].typ in FieldTypes(b[path[k]]);
    }
    assert Path(b, path);
  }
}
