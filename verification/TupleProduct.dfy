/** The compile-time products of type lists.

    A type is an atom or a std::tuple of types; an argument list is a sequence. */
module TupleProduct {

  datatype Type = Atom(name: nat) | Tuple(types: seq<Type>)

  /** TupleConcat: the template's specializations, the most specialized match first. */
  function TupleConcat(arguments: seq<Type>): (r: Type)
    ensures r.Tuple?
    decreases |arguments|, if |arguments| > 1 && arguments[1] == Tuple([]) then 0 else 1
  {
    if |arguments| == 0 then Tuple([])
    else if |arguments| == 1 && arguments[0].Tuple? then arguments[0]
    else if |arguments| == 2 && arguments[0].Tuple? && arguments[1] == Tuple([]) then arguments[0]
    else if |arguments| >= 2 && arguments[0].Tuple? && arguments[1].Tuple? then
      TupleConcat([Tuple(arguments[0].types + arguments[1].types), TupleConcat(arguments[2..])])
    else Tuple(arguments)
  }

  /** ProductRow<T, U...>: a tuple on the left is extended, anything else is paired. */
  function ProductRow(t: Type, us: seq<Type>): Type {
    Tuple(seq(|us|, j requires 0 <= j < |us| => Extended(t, us[j])))
  }

  function Extended(t: Type, u: Type): Type {
    if t.Tuple? then Tuple(t.types + [u]) else Tuple([t, u])
  }

  /** CartesianProduct<std::tuple<T...>, std::tuple<U...>> */
  function CartesianProduct(ts: seq<Type>, us: seq<Type>): seq<Type> {
    TupleConcat(seq(|ts|, i requires 0 <= i < |ts| => ProductRow(ts[i], us))).types
  }

  /** All the types of a list of tuples, in order. */
  function Flatten(arguments: seq<Type>): seq<Type>
    requires AllTuples(arguments)
  {
    if arguments == [] then [] else arguments[0].types + Flatten(arguments[1..])
  }

  predicate AllTuples(arguments: seq<Type>) { forall i | 0 <= i < |arguments| :: arguments[i].Tuple? }

  /** On tuples the specializations together mean concatenation. */
  lemma {:induction false} TupleConcatFlattens(arguments: seq<Type>)
    requires AllTuples(arguments)
    ensures TupleConcat(arguments) == Tuple(Flatten(arguments))
    decreases |arguments|, if |arguments| > 1 && arguments[1] == Tuple([]) then 0 else 1
  {
    if |arguments| == 0 {
    } else if |arguments| == 1 {
      assert Flatten(arguments[1..]) == [];
    } else if |arguments| == 2 && arguments[1] == Tuple([]) {
      FlattenTwo(arguments[0], arguments[1]);
      assert arguments == [arguments[0], arguments[1]];
    } else {
      TupleConcatFlattens(arguments[2..]);
      var rest := TupleConcat(arguments[2..]);
      var joined := Tuple(arguments[0].types + arguments[1].types);
      TupleConcatFlattens([joined, rest]);
      FlattenTwo(joined, rest);
      assert arguments[1..][1..] == arguments[2..];
    }
  }

  lemma FlattenTwo(a: Type, b: Type)
    requires a.Tuple? && b.Tuple?
    ensures Flatten([a, b]) == a.types + b.types
  {
    assert [a, b][1..] == [b] && [b][1..] == [];
    assert Flatten([b]) == b.types + Flatten([]) == b.types;
  }

  /** Rows of equal length land at consecutive multiples of it. */
  lemma {:induction false} FlattenIndex(rows: seq<Type>, n: nat, i: nat, j: nat)
    requires AllTuples(rows) && (forall k | 0 <= k < |rows| :: |rows[k].types| == n)
    requires i < |rows| && j < n
    ensures |Flatten(rows)| == |rows| * n && i * n + j < |Flatten(rows)|
    ensures Flatten(rows)[i * n + j] == rows[i].types[j]
  {
    FlattenLength(rows, n);
    if i > 0 {
      FlattenIndex(rows[1..], n, i - 1, j);
      assert i * n + j == n + ((i - 1) * n + j);
    } else {
      FlattenLength(rows[1..], n);
    }
    assert |rows| * n == n + (|rows| - 1) * n;
  }

  lemma {:induction false} FlattenLength(rows: seq<Type>, n: nat)
    requires AllTuples(rows) && (forall k | 0 <= k < |rows| :: |rows[k].types| == n)
    ensures |Flatten(rows)| == |rows| * n
  {
    if rows != [] {
      FlattenLength(rows[1..], n);
      assert |rows| * n == n + (|rows| - 1) * n;
    }
  }

  /** The product lists all combinations in row-major order: a plain type and a type give
      the pair, a tuple and a type the tuple with the type at its end. */
  lemma ProductIndex(ts: seq<Type>, us: seq<Type>, i: nat, j: nat)
    requires i < |ts| && j < |us|
    ensures |CartesianProduct(ts, us)| == |ts| * |us| && i * |us| + j < |ts| * |us|
    ensures CartesianProduct(ts, us)[i * |us| + j]
         == match ts[i] case Atom(_) => Tuple([ts[i], us[j]]) case Tuple(types) => Tuple(types + [us[j]])
  {
    var rows := seq(|ts|, k requires 0 <= k < |ts| => ProductRow(ts[k], us));
    TupleConcatFlattens(rows);
    FlattenIndex(rows, |us|, i, j);
  }

  /** Nesting products of plain types gives flat triples, again in row-major order. */
  lemma NestedProductIndex(ts: seq<Type>, us: seq<Type>, vs: seq<Type>, i: nat, j: nat, k: nat)
    requires i < |ts| && j < |us| && k < |vs| && ts[i].Atom?
    ensures var pairs := CartesianProduct(ts, us);
      && i * |us| + j < |pairs|
      && (i * |us| + j) * |vs| + k < |CartesianProduct(pairs, vs)|
      && CartesianProduct(pairs, vs)[(i * |us| + j) * |vs| + k] == Tuple([ts[i], us[j], vs[k]])
  {
    ProductIndex(ts, us, i, j);
    ProductIndex(CartesianProduct(ts, us), vs, i * |us| + j, k);
  }
}
