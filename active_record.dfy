/**
 * The abstract `Model` base class of the active-record layer: a fluent
 * WHERE-clause builder (`where`, `orWhere`, `whereIn`) that accumulates
 * clauses, `get`, which folds them into one filter string and one positional
 * parameter list and forgets them, the derivation of the ORM entity name from
 * the class name, `save` with its timestamps and the bulk `update`.
 *
 * The ORM underneath is not modelled: its finder is the parameter `find`, its
 * store operation the parameter `store` and the wall clock the parameter `now`.
 */
module ActiveRecord {
  import opened Php

  // ---------------------------------------------------------------------------
  // Arguments and clauses

  /** A PHP argument of mixed type: a scalar (possibly null) or a list of scalars. */
  datatype Arg = One(x: Scalar) | Many(xs: seq<Scalar>)

  /** `isset($a)`: everything but null. */
  predicate IsSet(a: Arg) {
    a != One(Null)
  }

  /** String interpolation of an argument; an array interpolates as "Array". */
  function ArgToString(a: Arg): string {
    match a
    case One(x) => ScalarToString(x)
    case Many(_) => "Array"
  }

  /** The default combinator of `where` and the one `orWhere` uses. */
  const AND := "and"
  const OR := "or"

  /**
   * One accumulated clause: its rendered fragment, the values bound to the
   * fragment's placeholders, and the keyword that joins it to the clause before.
   */
  datatype Clause = Clause(where: string, value: seq<Scalar>, implode: string)

  /** `Facade::genSlots` for a list of n values: n question marks joined by commas. */
  function GenSlots(n: nat): string
  {
    Implode(",", seq(n, _ => "?"))
  }

  /** The operator of a list comparison: `=` becomes IN, `!=` and `<>` become NOT IN. */
  function ListOperator(operator: Arg): string
  {
    if operator == One(Str("=")) then "IN"
    else if operator == One(Str("!=")) || operator == One(Str("<>")) then "NOT IN"
    else ArgToString(operator)
  }

  /** The fragment `" {column} {operator} {choose} "`. */
  function Fragment(column: string, operator: string, choose: string): string
  {
    " " + column + " " + operator + " " + choose + " "
  }

  /**
   * The clause that `where(column, operator, value, implode)` appends. An unset
   * value moves the operator argument into the value position and compares with
   * `=`; a list value renders a parenthesised placeholder group and binds the
   * list, a scalar renders one placeholder and binds the scalar alone.
   */
  function MakeClause(column: string, operator: Arg, value: Arg, implode: string): Clause
  {
    var (op, v) := if IsSet(value) then (operator, value) else (One(Str("=")), operator);
    match v
    case Many(xs) => Clause(Fragment(column, ListOperator(op), "(" + GenSlots(|xs|) + ")"), xs, implode)
    case One(x) => Clause(Fragment(column, ArgToString(op), "?"), [x], implode)
  }

  // ---------------------------------------------------------------------------
  // Compilation (the fold in `get`)

  /** The compiled filter: the first fragment as is, every later one after its own combinator. */
  function Filter(cs: seq<Clause>): string
  {
    if cs == [] then "" else cs[0].where + Joined(cs[1..])
  }

  function Joined(cs: seq<Clause>): string
  {
    if cs == [] then "" else cs[0].implode + cs[0].where + Joined(cs[1..])
  }

  /** The compiled parameter list: every clause's values, in clause order. */
  function Params(cs: seq<Clause>): seq<Scalar>
  {
    if cs == [] then [] else cs[0].value + Params(cs[1..])
  }

  /** What `get` hands to the ORM's finder. */
  datatype FindRequest = FindRequest(entity: string, filter: string, params: seq<Scalar>)

  /** The loop of `get`: the clauses folded into one filter and one parameter list. */
  method Fold(clauses: seq<Clause>) returns (filter: string, params: seq<Scalar>)
    ensures filter == Filter(clauses) && params == Params(clauses)
  {
    filter, params := "", [];
    var i := 0;
    while i < |clauses|
      invariant 0 <= i <= |clauses|
      invariant filter == Filter(clauses[..i]) && params == Params(clauses[..i])
    {
      var row := clauses[i];
      FilterSnoc(clauses[..i], row);
      ParamsAppend(clauses[..i], [row]);
      assert clauses[..i + 1] == clauses[..i] + [row];
      if i > 0 {
        filter := filter + row.implode;
      }
      filter := filter + row.where;
      params := params + row.value;
      i := i + 1;
    }
    assert clauses[..i] == clauses;
  }

  // ---------------------------------------------------------------------------
  // Entity name

  /** `modelClassName`: the last `\`-separated segment of the class name, `lcfirst`-ed. */
  function ModelClassName(className: string): string
  {
    var segments := Explode('\\', className);
    LcFirst(segments[|segments| - 1])
  }

  // ---------------------------------------------------------------------------
  // Beans, save and update

  /** A record as the ORM holds it: its properties by name. */
  datatype Bean = Bean(props: map<string, Scalar>)

  const UPDATED_AT := "updated_at"
  const CREATED_AT := "created_at"

  /** `!$object->id` fails: the bean has a truthy `id`. */
  predicate HasId(b: Bean) {
    "id" in b.props && Truthy(b.props["id"])
  }

  /** The timestamps `save` sets before storing (see `StampSetsTimestamps`). */
  function Stamp(props: map<string, Scalar>, now: Scalar): map<string, Scalar>
  {
    var updated := props[UPDATED_AT := now];
    if CREATED_AT in updated && Truthy(updated[CREATED_AT]) then updated
    else updated[CREATED_AT := now]
  }

  /** A target of `update` after its attributes are assigned and `save` has stamped it. */
  function Prepare(target: Bean, attributes: map<string, Scalar>, now: Scalar): Bean
  {
    Bean(Stamp(target.props + attributes, now))
  }

  /** The index of the first target without an id, or the number of targets if all have one. */
  function FirstMissing(targets: seq<Bean>): (k: nat)
    ensures k <= |targets|
    ensures forall i :: 0 <= i < k ==> HasId(targets[i])
    ensures k < |targets| ==> !HasId(targets[k])
  {
    if targets == [] || !HasId(targets[0]) then 0 else 1 + FirstMissing(targets[1..])
  }

  /**
   * The outcome of `update`'s loop over `targets`: the targets before the first
   * one without an id are prepared and stored in order; the result is false if a
   * target lacks an id, and otherwise the success of the last store (true when
   * there is no target).
   */
  ghost predicate SaveOutcome(targets: seq<Bean>, attributes: map<string, Scalar>, now: Scalar,
                              store: Bean -> Scalar, result: bool, saved: seq<Bean>)
  {
    var k := FirstMissing(targets);
    |saved| == k &&
    (forall i :: 0 <= i < k ==> saved[i] == Prepare(targets[i], attributes, now)) &&
    result == (k == |targets| && (k == 0 || Truthy(store(saved[k - 1]))))
  }

  /** The body of `update`'s loop, over the targets it resolved. */
  method SaveAll(targets: seq<Bean>, attributes: map<string, Scalar>, now: Scalar, store: Bean -> Scalar)
    returns (result: bool, saved: seq<Bean>)
    ensures |saved| == FirstMissing(targets)
    ensures forall i :: 0 <= i < |saved| ==> saved[i] == Prepare(targets[i], attributes, now)
    ensures result == (|saved| == |targets| && (saved == [] || Truthy(store(saved[|saved| - 1]))))
  {
    result, saved := true, [];
    var i := 0;
    while i < |targets|
      invariant i <= FirstMissing(targets)
      invariant |saved| == i
      invariant forall j :: 0 <= j < i ==> saved[j] == Prepare(targets[j], attributes, now)
      invariant result == (i == 0 || Truthy(store(saved[i - 1])))
    {
      if !HasId(targets[i]) {
        result := false;
        break;
      }
      var target := Prepare(targets[i], attributes, now);
      ghost var before := saved;
      saved := saved + [target];
      assert forall j :: 0 <= j < i ==> saved[j] == before[j];
      result := Truthy(store(target));
      i := i + 1;
    }
  }

  // ---------------------------------------------------------------------------
  // The model object

  class Model {
    /** The concrete model's class name, as `static::class` gives it. */
    const className: string
    /** The bean properties of this record. */
    var fields: map<string, Scalar>
    /** The pending clauses (`$__where`). */
    var where: seq<Clause>

    constructor (className: string, fields: map<string, Scalar>)
      ensures this.className == className && this.fields == fields && where == []
    {
      this.className := className;
      this.fields := fields;
      where := [];
    }

    /** `where($column, $operator, $value, $implode)`: appends one clause and returns this object. */
    method Where(column: string, operator: Arg, value: Arg, implode: string) returns (self: Model)
      modifies this
      ensures self == this
      ensures where == old(where) + [MakeClause(column, operator, value, implode)]
      ensures fields == old(fields)
    {
      where := where + [MakeClause(column, operator, value, implode)];
      self := this;
    }

    /** `orWhere`: `where` joined with "or". */
    method OrWhere(column: string, operator: Arg, value: Arg) returns (self: Model)
      modifies this
      ensures self == this
      ensures where == old(where) + [MakeClause(column, operator, value, OR)]
      ensures fields == old(fields)
    {
      self := Where(column, operator, value, OR);
    }

    /** `whereIn`: `where` with the list as value and `=` (or `<>` when negated) as operator. */
    method WhereIn(column: string, values: seq<Scalar>, implode: string, not: bool) returns (self: Model)
      modifies this
      ensures self == this
      ensures where == old(where) + [MakeClause(column, One(Str(if not then "<>" else "=")), Many(values), implode)]
      ensures fields == old(fields)
    {
      self := Where(column, One(Str(if not then "<>" else "=")), Many(values), implode);
    }

    /** The compile-and-reset part of `get`: folds the pending clauses and empties the list. */
    method Compile() returns (filter: string, params: seq<Scalar>)
      modifies this
      ensures filter == Filter(old(where)) && params == Params(old(where))
      ensures where == [] && fields == old(fields)
    {
      filter, params := Fold(where);
      where := [];
    }

    /** `get`: compiles the pending clauses and returns what the ORM finds for them. */
    method Get(find: FindRequest -> seq<Bean>) returns (found: seq<Bean>)
      modifies this
      ensures found == find(FindRequest(ModelClassName(className), Filter(old(where)), Params(old(where))))
      ensures where == [] && fields == old(fields)
    {
      var filter, params := Compile();
      found := find(FindRequest(ModelClassName(className), filter, params));
    }

    /** `save`: stamps this record's timestamps and stores it; returns what the store returns. */
    method Save(now: Scalar, store: Bean -> Scalar) returns (id: Scalar)
      modifies this
      ensures fields == Stamp(old(fields), now) && where == old(where)
      ensures id == store(Bean(fields))
    {
      fields := Stamp(fields, now);
      id := store(Bean(fields));
    }

    /**
     * `update($attributes)`: false without attributes; otherwise the targets are
     * what `get` finds when clauses are pending, else this record alone; each is
     * assigned the attributes and saved in turn, stopping at the first one
     * without an id. `saved` lists the beans handed to the store, in order.
     */
    method Update(attributes: map<string, Scalar>, now: Scalar,
                  find: FindRequest -> seq<Bean>, store: Bean -> Scalar)
      returns (result: bool, saved: seq<Bean>)
      modifies this
      ensures attributes == map[] ==> !result && saved == [] && where == old(where) && fields == old(fields)
      ensures attributes != map[] ==>
        var targets := if old(where) == [] then [Bean(old(fields))]
                       else find(FindRequest(ModelClassName(className), Filter(old(where)), Params(old(where))));
        SaveOutcome(targets, attributes, now, store, result, saved) && where == [] &&
        fields == if old(where) == [] && saved != [] then saved[0].props else old(fields)
    {
      if attributes == map[] {
        return false, [];
      }
      var pending := where != [];
      var targets := [Bean(fields)];
      if pending {
        targets := Get(find);
      }
      result, saved := SaveAll(targets, attributes, now, store);
      if !pending && saved != [] {
        fields := saved[0].props;
      }
    }
  }

  // ---------------------------------------------------------------------------
  // Properties of clause rendering

  lemma {:induction false} SlotsShape(n: nat)
    ensures |GenSlots(n)| == if n == 0 then 0 else 2 * n - 1
    ensures forall k :: 0 <= k < |GenSlots(n)| ==> GenSlots(n)[k] == if k % 2 == 0 then '?' else ','
  {
    if n > 1 {
      SlotsShape(n - 1);
      assert seq(n, _ => "?")[1..] == seq(n - 1, _ => "?");
      assert GenSlots(n) == "?" + "," + GenSlots(n - 1);
    }
  }

  /** The placeholder group for n values holds exactly n placeholders. */
  lemma {:induction false} SlotsCount(n: nat)
    ensures Count('?', GenSlots(n)) == n
  {
    if n > 1 {
      SlotsCount(n - 1);
      assert seq(n, _ => "?")[1..] == seq(n - 1, _ => "?");
      assert GenSlots(n) == "?," + GenSlots(n - 1);
      CountAppend('?', "?,", GenSlots(n - 1));
    }
  }

  /** `where(c, x)` with the value omitted is `where(c, '=', x)`, for any x that is set. */
  lemma DefaultOperator(column: string, x: Arg, implode: string)
    requires IsSet(x)
    ensures MakeClause(column, x, One(Null), implode) == MakeClause(column, One(Str("=")), x, implode)
  {
  }

  /**
   * An explicit null value is not set, so the operator argument becomes the
   * bound value: `where(c, '!=', null)` compares c with the string "!=".
   */
  lemma ExplicitNullValue(column: string, implode: string)
    ensures MakeClause(column, One(Str("!=")), One(Null), implode) ==
            Clause(" " + column + " = ? ", [Str("!=")], implode)
  {
  }

  /** A set scalar value gives one placeholder and binds exactly that value. */
  lemma ScalarClause(column: string, operator: Arg, x: Scalar, implode: string)
    requires x != Null
    ensures var c := MakeClause(column, operator, One(x), implode);
            c.where == " " + column + " " + ArgToString(operator) + " ? " &&
            c.value == [x] && c.implode == implode
  {
  }

  /**
   * A list value of length n: `=` renders IN, `!=` and `<>` render NOT IN, any
   * other operator is kept; the placeholder is `(` n comma-separated `?` `)`;
   * the list is bound as given, in order.
   */
  lemma ListClause(column: string, operator: Arg, xs: seq<Scalar>, implode: string)
    ensures var c := MakeClause(column, operator, Many(xs), implode);
            var op := if operator == One(Str("=")) then "IN"
                      else if operator == One(Str("!=")) || operator == One(Str("<>")) then "NOT IN"
                      else ArgToString(operator);
            c.where == " " + column + " " + op + " (" + GenSlots(|xs|) + ") " &&
            c.value == xs && c.implode == implode
  {
    var c := MakeClause(column, operator, Many(xs), implode);
    assert c.where == " " + column + " " + ListOperator(operator) + " " + "(" + GenSlots(|xs|) + ")" + " ";
  }

  /** `whereIn` always renders a membership test: IN, or NOT IN when negated. */
  lemma WhereInClause(column: string, values: seq<Scalar>, implode: string, not: bool)
    ensures var c := MakeClause(column, One(Str(if not then "<>" else "=")), Many(values), implode);
            c.where == " " + column + (if not then " NOT IN (" else " IN (") + GenSlots(|values|) + ") " &&
            c.value == values
  {
    ListClause(column, One(Str(if not then "<>" else "=")), values, implode);
  }

  /** A clause whose placeholders match its values one for one and whose combinator has none. */
  predicate Balanced(c: Clause) {
    Count('?', c.where) == |c.value| && '?' !in c.implode
  }

  /**
   * When neither the column, nor the combinator, nor an operator that gets
   * rendered contains `?`, the fragment holds one placeholder per bound value.
   */
  lemma ClauseBalanced(column: string, operator: Arg, value: Arg, implode: string)
    requires '?' !in column && '?' !in implode
    requires IsSet(value) ==> '?' !in ArgToString(operator)
    ensures Balanced(MakeClause(column, operator, value, implode))
  {
    var (op, v) := if IsSet(value) then (operator, value) else (One(Str("=")), operator);
    match v {
      case Many(xs) =>
        assert '?' !in ListOperator(op);
        FragmentCount(column, ListOperator(op), "(" + GenSlots(|xs|) + ")");
        SlotsCount(|xs|);
        CountAppend('?', "(", GenSlots(|xs|));
        CountAppend('?', "(" + GenSlots(|xs|), ")");
      case One(_) =>
        assert '?' !in ArgToString(op);
        FragmentCount(column, ArgToString(op), "?");
    }
  }

  /** The placeholders of a fragment are those of its placeholder part. */
  lemma FragmentCount(column: string, operator: string, choose: string)
    requires '?' !in column && '?' !in operator
    ensures Count('?', Fragment(column, operator, choose)) == Count('?', choose)
  {
    CountAbsent('?', column);
    CountAbsent('?', operator);
    var a := " " + column;
    var b := a + " ";
    var c := b + operator;
    var d := c + " ";
    var e := d + choose;
    CountAppend('?', " ", column);
    CountAppend('?', a, " ");
    CountAppend('?', b, operator);
    CountAppend('?', c, " ");
    CountAppend('?', d, choose);
    CountAppend('?', e, " ");
  }

  // ---------------------------------------------------------------------------
  // Properties of compilation

  /** Appending a clause appends its fragment, after its own combinator unless it is the first. */
  lemma {:induction false} FilterSnoc(cs: seq<Clause>, c: Clause)
    ensures Filter(cs + [c]) == Filter(cs) + (if cs == [] then "" else c.implode) + c.where
  {
    var s := cs + [c];
    if cs == [] {
      assert s == [c] && s[1..] == [];
    } else {
      assert s[0] == cs[0] && s[1..] == cs[1..] + [c];
      JoinedSnoc(cs[1..], c);
      assert Filter(s) == cs[0].where + (Joined(cs[1..]) + c.implode + c.where);
    }
  }

  lemma {:induction false} JoinedSnoc(cs: seq<Clause>, c: Clause)
    ensures Joined(cs + [c]) == Joined(cs) + c.implode + c.where
  {
    var s := cs + [c];
    if cs == [] {
      assert s == [c] && s[1..] == [];
      assert Joined(s) == c.implode + c.where + "";
    } else {
      assert s[0] == cs[0] && s[1..] == cs[1..] + [c];
      JoinedSnoc(cs[1..], c);
      assert Joined(s) == cs[0].implode + cs[0].where + (Joined(cs[1..]) + c.implode + c.where);
    }
  }

  /** The parameters of consecutive clause lists are concatenated in order. */
  lemma {:induction false} ParamsAppend(a: seq<Clause>, b: seq<Clause>)
    ensures Params(a + b) == Params(a) + Params(b)
  {
    if a == [] {
      assert a + b == b;
    } else {
      assert (a + b)[1..] == a[1..] + b;
      ParamsAppend(a[1..], b);
    }
  }

  /** With scalar clauses only, there is one parameter per clause, in clause order. */
  lemma {:induction false} ScalarParams(cs: seq<Clause>)
    requires forall i :: 0 <= i < |cs| ==> |cs[i].value| == 1
    ensures |Params(cs)| == |cs|
    ensures forall i :: 0 <= i < |cs| ==> Params(cs)[i] == cs[i].value[0]
  {
    if cs != [] {
      ScalarParams(cs[1..]);
    }
  }

  /** Balanced clauses compile to a filter with exactly one placeholder per parameter. */
  lemma {:induction false} CompiledBalanced(cs: seq<Clause>)
    requires forall i :: 0 <= i < |cs| ==> Balanced(cs[i])
    ensures Count('?', Filter(cs)) == |Params(cs)|
  {
    if cs != [] {
      JoinedBalanced(cs[1..]);
      CountAppend('?', cs[0].where, Joined(cs[1..]));
    }
  }

  lemma {:induction false} JoinedBalanced(cs: seq<Clause>)
    requires forall i :: 0 <= i < |cs| ==> Balanced(cs[i])
    ensures Count('?', Joined(cs)) == |Params(cs)|
  {
    if cs != [] {
      JoinedBalanced(cs[1..]);
      CountAbsent('?', cs[0].implode);
      CountAppend('?', cs[0].implode, cs[0].where);
      CountAppend('?', cs[0].implode + cs[0].where, Joined(cs[1..]));
    }
  }

  // ---------------------------------------------------------------------------
  // Properties of the entity name

  /**
   * The entity name is the part of the class name after its last `\`, with its
   * first character lower-cased; it contains no `\`.
   */
  lemma ModelClassNameIsLastSegment(className: string)
    ensures |ModelClassName(className)| <= |className|
    ensures var r := ModelClassName(className);
            var segment := className[|className| - |r|..];
            r == LcFirst(segment) && '\\' !in segment && '\\' !in r &&
            (|r| == |className| || className[|className| - |r| - 1] == '\\')
  {
    ExplodeLast('\\', className);
    var segments := Explode('\\', className);
    LcFirstKeepsAbsent('\\', segments[|segments| - 1]);
  }

  lemma UserEntityName()
    ensures ModelClassName("App\\Models\\User") == "user"
  {
    var pieces := ["App", "Models", "User"];
    assert pieces[1..] == ["Models", "User"] && pieces[1..][1..] == ["User"];
    assert Implode("\\", ["Models", "User"]) == "Models\\User";
    assert Implode("\\", pieces) == "App\\Models\\User";
    ExplodeImplode('\\', pieces);
    assert ToLower('U') == 'u';
    assert LcFirst("User") == "user";
  }

  // ---------------------------------------------------------------------------
  // Properties of update

  /**
   * `save` always sets `updated_at` to the current time, sets `created_at` only
   * when it is missing or falsy, and keeps every other property.
   */
  lemma StampSetsTimestamps(props: map<string, Scalar>, now: Scalar)
    ensures var r := Stamp(props, now);
            r.Keys == props.Keys + {UPDATED_AT, CREATED_AT} &&
            r[UPDATED_AT] == now &&
            r[CREATED_AT] == (if CREATED_AT in props && Truthy(props[CREATED_AT]) then props[CREATED_AT] else now) &&
            forall k :: k in props && k != UPDATED_AT && k != CREATED_AT ==> r[k] == props[k]
  {
    assert UPDATED_AT != CREATED_AT by {
      assert UPDATED_AT[0] != CREATED_AT[0];
    }
  }

  /** A target without an id makes `update` report failure, after storing only the targets before it. */
  lemma MissingIdFails(targets: seq<Bean>, attributes: map<string, Scalar>, now: Scalar,
                       store: Bean -> Scalar, result: bool, saved: seq<Bean>, j: nat)
    requires SaveOutcome(targets, attributes, now, store, result, saved)
    requires j < |targets| && !HasId(targets[j])
    ensures !result && |saved| <= j
  {
  }

  // ---------------------------------------------------------------------------
  // Scenarios

  /** `where('status', '=', 'active')->orWhere('role', 'admin')` compiles to " status = ? or role = ? ". */
  lemma StatusOrRoleFilter()
    ensures var cs := [MakeClause("status", One(Str("=")), One(Str("active")), AND),
                       MakeClause("role", One(Str("admin")), One(Null), OR)];
            Filter(cs) == " status = ? or role = ? " && Params(cs) == [Str("active"), Str("admin")]
  {
    var first := MakeClause("status", One(Str("=")), One(Str("active")), AND);
    var second := MakeClause("role", One(Str("admin")), One(Null), OR);
    assert ArgToString(One(Str("="))) == "=";
    assert first == Clause(Fragment("status", "=", "?"), [Str("active")], AND);
    assert second == Clause(Fragment("role", "=", "?"), [Str("admin")], OR);
    assert Fragment("status", "=", "?") == " status = ? ";
    assert Fragment("role", "=", "?") == " role = ? ";
    var cs := [first, second];
    assert cs[1..] == [second] && cs[1..][1..] == [];
    assert Joined(cs[1..][1..]) == "" && Params(cs[1..][1..]) == [];
    assert Joined(cs[1..]) == second.implode + second.where + "";
    assert Params(cs[1..]) == second.value + [];
    assert Filter(cs) == first.where + Joined(cs[1..]);
    assert Params(cs) == first.value + Params(cs[1..]);
  }

  /** The fluent chain, compiled, and compiled again. */
  method StatusOrRole()
  {
    var m := new Model("App\\Models\\User", map[]);
    var _ := m.Where("status", One(Str("=")), One(Str("active")), AND);
    var _ := m.OrWhere("role", One(Str("admin")), One(Null));
    var filter, params := m.Compile();
    StatusOrRoleFilter();
    assert filter == " status = ? or role = ? ";
    assert params == [Str("active"), Str("admin")];
    filter, params := m.Compile();
    assert filter == "" && params == [];
  }

  /** `whereIn('id', [1, 2, 3], 'and', true)` compiles to `id NOT IN (?,?,?)` binding 1, 2, 3. */
  method NegatedWhereIn()
  {
    var m := new Model("App\\Models\\User", map[]);
    var _ := m.WhereIn("id", [Int(1), Int(2), Int(3)], AND, true);
    var filter, params := m.Compile();
    WhereInClause("id", [Int(1), Int(2), Int(3)], AND, true);
    SlotsShape(3);
    assert GenSlots(3) == "?,?,?";
    assert filter == " id NOT IN (?,?,?) ";
    assert params == [Int(1), Int(2), Int(3)];
  }
}
