/**
 Literal values of the canonical syntax tree, as Perl scalars, references and
 containers, and the argument comparison of field merging.
 */
module Values {

  datatype Option<+T> = None | Some(value: T)

  /** A literal. A null is an undefined scalar; numbers and strings are plain
      scalars; the other leaves are references told apart by their referent. */
  datatype Value =
    | Undef
    | Int(n: int)
    | Float(text: string)
    | Str(text: string)
    | Bool(b: bool)
    | Enum(name: string)
    | Variable(name: string)
    | List(items: seq<Value>)
    | Object(fields: map<string, Value>)

  /** The decimal rendering Perl gives an integer scalar. */
  function DecimalText(n: int): string
    decreases if n < 0 then 1 - n else n
  {
    if n < 0 then "-" + DecimalText(-n)
    else if n < 10 then [('0' as int + n) as char]
    else DecimalText(n / 10) + [('0' as int + n % 10) as char]
  }

  predicate IsPlainScalar(v: Value) {
    v.Int? || v.Float? || v.Str?
  }

  /** The text by which two plain scalars are compared (string equality). */
  function ScalarText(v: Value): string
    requires IsPlainScalar(v)
  {
    match v
    case Int(n) => DecimalText(n)
    case Float(text) => text
    case Str(text) => text
  }

  /** The structural comparison of two literals. Plain scalars compare by their
      text, so the literals 1 and "1" are equal. */
  predicate ValuesEqual(left: Value, right: Value)
    decreases left
  {
    if IsPlainScalar(left) && IsPlainScalar(right) then
      ScalarText(left) == ScalarText(right)
    else
      match (left, right)
      case (List(xs), List(ys)) =>
        |xs| == |ys| && forall i :: 0 <= i < |xs| ==> ValuesEqual(xs[i], ys[i])
      case (Object(f), Object(g)) =>
        |f| == |g| && forall k :: k in f ==> k in g && ValuesEqual(f[k], g[k])
      case _ => left == right
  }

  /** Two argument hashes: a missing hash equals only a missing hash. */
  predicate ArgumentsEqual(left: Option<map<string, Value>>, right: Option<map<string, Value>>) {
    match (left, right)
    case (None, None) => true
    case (Some(f), Some(g)) => ValuesEqual(Object(f), Object(g))
    case _ => false
  }

  /** The normal form of a literal: every plain scalar becomes its text. */
  function Normal(v: Value): Value {
    match v
    case Int(_) => Str(ScalarText(v))
    case Float(_) => Str(ScalarText(v))
    case List(items) => List(seq(|items|, i requires 0 <= i < |items| => Normal(items[i])))
    case Object(fields) => Object(map k | k in fields :: Normal(fields[k]))
    case _ => v
  }

  lemma SubsetOfSameSize<T>(a: set<T>, b: set<T>)
    requires a <= b && |a| == |b|
    ensures a == b
  {
    assert b == a + (b - a) && |b| == |a| + |b - a|;
  }

  /** The comparison decides equality of normal forms, so it is an equivalence. */
  lemma {:induction false} ValuesEqualIffSameNormalForm(left: Value, right: Value)
    ensures ValuesEqual(left, right) <==> Normal(left) == Normal(right)
    decreases left, 1
  {
    match (left, right) {
      case (List(_), List(_)) => ListsEqualIffSameNormalForm(left, right);
      case (Object(_), Object(_)) => ObjectsEqualIffSameNormalForm(left, right);
      case _ =>
    }
  }

  lemma {:induction false} ListsEqualIffSameNormalForm(left: Value, right: Value)
    requires left.List? && right.List?
    ensures ValuesEqual(left, right) <==> Normal(left) == Normal(right)
    decreases left, 0
  {
    var xs, ys := left.items, right.items;
    forall i | 0 <= i < |xs| && i < |ys|
      ensures ValuesEqual(xs[i], ys[i]) <==> Normal(xs[i]) == Normal(ys[i])
    {
      ValuesEqualIffSameNormalForm(xs[i], ys[i]);
    }
    if Normal(left) == Normal(right) {
      forall i | 0 <= i < |xs| ensures ValuesEqual(xs[i], ys[i]) {
        assert Normal(left).items[i] == Normal(right).items[i];
      }
    }
  }

  lemma {:induction false} ObjectsEqualIffSameNormalForm(left: Value, right: Value)
    requires left.Object? && right.Object?
    ensures ValuesEqual(left, right) <==> Normal(left) == Normal(right)
    decreases left, 0
  {
    var f, g := left.fields, right.fields;
    forall k | k in f && k in g
      ensures ValuesEqual(f[k], g[k]) <==> Normal(f[k]) == Normal(g[k])
    {
      ValuesEqualIffSameNormalForm(f[k], g[k]);
    }
    var m, n := Normal(left).fields, Normal(right).fields;
    assert m.Keys == f.Keys && n.Keys == g.Keys;
    assert |f| == |f.Keys| && |g| == |g.Keys|;
    if ValuesEqual(left, right) {
      SubsetOfSameSize(f.Keys, g.Keys);
      assert m == n;
    }
    if m == n {
      forall k | k in f ensures k in g && ValuesEqual(f[k], g[k]) {
        assert k in n && m[k] == n[k];
      }
    }
  }

  function NormalArguments(arguments: Option<map<string, Value>>): Option<Value> {
    match arguments
    case None => None
    case Some(fields) => Some(Normal(Object(fields)))
  }

  lemma ArgumentsEqualIffSameNormalForm(left: Option<map<string, Value>>, right: Option<map<string, Value>>)
    ensures ArgumentsEqual(left, right) <==> NormalArguments(left) == NormalArguments(right)
  {
    if left.Some? && right.Some? {
      ValuesEqualIffSameNormalForm(Object(left.value), Object(right.value));
    }
  }

  // ----- What is equal to what -----

  /** The number a text of decimal digits stands for. */
  function NumberOf(text: string): int {
    if text == "" then 0
    else NumberOf(text[..|text| - 1]) * 10 + (text[|text| - 1] as int - '0' as int)
  }

  /** The digits written are decimal, without leading zeros, and read back as the number. */
  lemma {:induction false} DigitsRead(n: nat)
    ensures DecimalText(n) != "" && NumberOf(DecimalText(n)) == n
    ensures forall i :: 0 <= i < |DecimalText(n)| ==> '0' <= DecimalText(n)[i] <= '9'
    ensures DecimalText(n)[0] == '0' ==> n == 0
    decreases n
  {
    var last := [('0' as int + n % 10) as char];
    if n < 10 {
      assert DecimalText(n) == last && last[..0] == "";
      assert NumberOf(last[..0]) == 0;
    } else {
      DigitsRead(n / 10);
      var front := DecimalText(n / 10);
      assert DecimalText(n) == front + last;
      assert (front + last)[..|front|] == front;
    }
  }

  /** A negative number is a minus sign and the digits of its absolute value. */
  lemma NegativesRead(n: int)
    requires n < 0
    ensures DecimalText(n) == "-" + DecimalText(-n)
  {
  }

  /** Different integers have different texts. */
  lemma TextsTellIntegersApart(m: int, n: int)
    requires DecimalText(m) == DecimalText(n)
    ensures m == n
  {
    DigitsRead(if m < 0 then -m else m);
    DigitsRead(if n < 0 then -n else n);
    if m < 0 && n < 0 {
      assert DecimalText(m)[1..] == DecimalText(-m) && DecimalText(n)[1..] == DecimalText(-n);
    }
  }

  /** Integers are equal to their own text only, written as a string or a float;
      strings and floats are equal when their texts are. */
  lemma ScalarsByText(m: int, n: int, a: string, b: string)
    ensures ValuesEqual(Int(m), Int(n)) <==> m == n
    ensures ValuesEqual(Str(a), Str(b)) <==> a == b
    ensures ValuesEqual(Float(a), Str(b)) <==> a == b
    ensures ValuesEqual(Float(a), Float(b)) <==> a == b
    ensures ValuesEqual(Int(1), Str("1")) && !ValuesEqual(Int(1), Int(-1)) && !ValuesEqual(Int(1), Float("1.0"))
    ensures DecimalText(0) == "0" && DecimalText(-12) == "-12"
  {
    if DecimalText(m) == DecimalText(n) {
      TextsTellIntegersApart(m, n);
    }
    assert DecimalText(12) == "1" + "2";
  }

  /** Nulls, booleans, enums and variables are equal to nothing but themselves; in
      particular `"A"` is not the enum `A`, nor `"true"` true. */
  lemma OthersByIdentity(v: Value, w: Value)
    requires v.Undef? || v.Bool? || v.Enum? || v.Variable?
    ensures ValuesEqual(v, w) <==> v == w
    ensures ValuesEqual(w, v) <==> v == w
  {
  }

  /** Lists are equal item by item, objects field by field; a container is equal to no
      scalar, and missing arguments are not empty ones. */
  lemma ContainersByContents(xs: seq<Value>, ys: seq<Value>, f: map<string, Value>, g: map<string, Value>, v: Value)
    ensures ValuesEqual(List(xs), List(ys)) <==>
            |xs| == |ys| && forall i :: 0 <= i < |xs| ==> ValuesEqual(xs[i], ys[i])
    ensures ValuesEqual(Object(f), Object(g)) <==>
            f.Keys == g.Keys && forall k :: k in f && k in g ==> ValuesEqual(f[k], g[k])
    ensures !v.List? ==> !ValuesEqual(List(xs), v) && !ValuesEqual(v, List(xs))
    ensures !v.Object? ==> !ValuesEqual(Object(f), v) && !ValuesEqual(v, Object(f))
    ensures !ArgumentsEqual(None, Some(f)) && !ArgumentsEqual(Some(f), None) && ArgumentsEqual(None, None)
    ensures ArgumentsEqual(Some(f), Some(g)) <==>
            f.Keys == g.Keys && forall k :: k in f && k in g ==> ValuesEqual(f[k], g[k])
  {
    assert |f| == |f.Keys| && |g| == |g.Keys|;
    if ValuesEqual(Object(f), Object(g)) {
      SubsetOfSameSize(f.Keys, g.Keys);
    }
  }
}
