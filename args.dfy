/**
 * Command arguments as the caller passes them, and their resolution into the
 * argument tuple a command stores: nested tuples and lists are flattened in
 * order, scalars become text, a `bytearray` becomes `bytes`, `None` is a type
 * error and the reserved syntaxes (Ellipsis, a dict, a set) are not supported.
 */
module Args {
  import opened Wrappers
  import opened Bytes
  import opened Errors
  import Decimal

  /**
   * A float that holds an integer exactly (|x| <= 2^53), the components of the
   * complex numbers modelled; it has one zero, so a negative-zero part is not covered.
   */
  newtype ExactInt = x: int | -0x20_0000_0000_0000 <= x <= 0x20_0000_0000_0000

  /** A Python value passed as a command argument. */
  datatype Arg =
    | Text(s: string)
    | Bytes(b: seq<byte>)
    | ByteArray(b: seq<byte>)
    | Int(i: int)
    | Bool(v: bool)
    | Complex(re: ExactInt, im: ExactInt)
    | PathValue(path: string)
    /** A tuple or a list. */
    | List(items: seq<Arg>)
    | NoneValue
    | EllipsisValue
    | DictValue
    | SetValue

  /** An argument as a command stores it: text or bytes. */
  predicate IsResolved(a: Arg)
  {
    a.Text? || a.Bytes?
  }

  predicate AllResolved(args: seq<Arg>)
  {
    forall k :: 0 <= k < |args| ==> IsResolved(args[k])
  }

  /** Python `str()` of a complex number whose parts are exact integers. */
  function ComplexText(re: ExactInt, im: ExactInt): (s: string)
    ensures |s| > 1
    ensures s[0] == '(' <==> re != 0
    ensures s[|s| - 1] == (if re == 0 then 'j' else ')')
  {
    if re == 0 then Decimal.IntToText(im as int) + "j"
    else "(" + Decimal.IntToText(re as int) + SignedImag(im) + ")"
  }

  /** The imaginary part as it follows a non-zero real part: always signed, then `j`. */
  function SignedImag(im: ExactInt): (s: string)
    ensures |s| > 1 && (s[0] == '+' || s[0] == '-')
    ensures s[0] == '-' <==> im < 0
  {
    (if im < 0 then "" else "+") + Decimal.IntToText(im as int) + "j"
  }

  /** Distinct complex numbers have distinct text. */
  lemma ComplexTextInjective(a: ExactInt, b: ExactInt, c: ExactInt, d: ExactInt)
    ensures ComplexText(a, b) == ComplexText(c, d) <==> a == c && b == d
  {
    if ComplexText(a, b) == ComplexText(c, d) {
      if a == 0 {
        PureImagInjective(b, d);
      } else {
        WrappedInjective(a, b, c, d);
      }
    }
  }

  lemma PureImagInjective(b: ExactInt, d: ExactInt)
    requires ComplexText(0, b) == ComplexText(0, d)
    ensures b == d
  {
    DropSuffix(Decimal.IntToText(b as int), Decimal.IntToText(d as int), "j");
    Decimal.IntToTextInjective(b as int, d as int);
  }

  lemma WrappedInjective(a: ExactInt, b: ExactInt, c: ExactInt, d: ExactInt)
    requires a != 0 && c != 0 && ComplexText(a, b) == ComplexText(c, d)
    ensures a == c && b == d
  {
    Decimal.IntToTextShape(a as int);
    Decimal.IntToTextShape(c as int);
    WrappedSplit(Decimal.IntToText(a as int), SignedImag(b), Decimal.IntToText(c as int), SignedImag(d));
    Decimal.IntToTextInjective(a as int, c as int);
    SignedImagInjective(b, d);
  }

  /** Parenthesised integer text followed by a signed part splits back into the two. */
  lemma WrappedSplit(a: string, x: string, c: string, y: string)
    requires Decimal.IntegerShape(a) && Decimal.IntegerShape(c)
    requires |x| > 0 && (x[0] == '+' || x[0] == '-')
    requires |y| > 0 && (y[0] == '+' || y[0] == '-')
    requires "(" + a + x + ")" == "(" + c + y + ")"
    ensures a == c && x == y
  {
    assert "(" + a + x + ")" == "(" + (a + x) + ")";
    assert "(" + c + y + ")" == "(" + (c + y) + ")";
    Unwrap(a + x, c + y);
    SplitAtSign(a, x, c, y);
  }

  lemma SignedImagInjective(b: ExactInt, d: ExactInt)
    requires SignedImag(b) == SignedImag(d)
    ensures b == d
  {
    var tb, td := Decimal.IntToText(b as int), Decimal.IntToText(d as int);
    if b < 0 {
      assert SignedImag(b) == tb + "j" && SignedImag(d) == td + "j";
    } else {
      assert SignedImag(b) == "+" + (tb + "j") && SignedImag(d) == "+" + (td + "j");
      assert tb + "j" == SignedImag(b)[1..];
    }
    DropSuffix(tb, td, "j");
    Decimal.IntToTextInjective(b as int, d as int);
  }

  lemma DropSuffix(s: string, t: string, u: string)
    requires s + u == t + u
    ensures s == t
  {
    assert s == (s + u)[..|s|];
    assert t == (t + u)[..|t|];
  }

  lemma Unwrap(s: string, t: string)
    requires "(" + s + ")" == "(" + t + ")"
    ensures s == t
  {
    assert s == ("(" + s + ")")[1..|s| + 1];
    assert t == ("(" + t + ")")[1..|t| + 1];
  }

  /** The first sign at or after position `i` of `s`, or `|s|` when there is none. */
  function SignIndex(s: string, i: nat): (k: nat)
    requires i <= |s|
    ensures i <= k <= |s|
    decreases |s| - i
  {
    if i == |s| || s[i] == '+' || s[i] == '-' then i else SignIndex(s, i + 1)
  }

  /** In the text of an integer followed by a signed part, the first sign after position 0 starts that part. */
  lemma {:induction false} SignIndexOfJoin(a: string, x: string, i: nat)
    requires Decimal.IntegerShape(a) && 1 <= i <= |a|
    requires |x| > 0 && (x[0] == '+' || x[0] == '-')
    ensures SignIndex(a + x, i) == |a|
    decreases |a| - i
  {
    if i < |a| {
      assert (a + x)[i] == a[i];
      SignIndexOfJoin(a, x, i + 1);
    } else {
      assert (a + x)[i] == x[0];
    }
  }

  /** An integer's text followed by a signed part splits back at the sign. */
  lemma SplitAtSign(a: string, x: string, c: string, y: string)
    requires Decimal.IntegerShape(a) && Decimal.IntegerShape(c)
    requires |x| > 0 && (x[0] == '+' || x[0] == '-')
    requires |y| > 0 && (y[0] == '+' || y[0] == '-')
    requires a + x == c + y
    ensures a == c && x == y
  {
    SignIndexOfJoin(a, x, 1);
    SignIndexOfJoin(c, y, 1);
    assert a == (a + x)[..|a|];
    assert c == (c + y)[..|c|];
    assert x == (a + x)[|a|..];
    assert y == (c + y)[|c|..];
  }

  /** How one argument that is not a tuple or list is resolved. */
  function Coerce(a: Arg): (r: Result<Arg, Error>)
    requires !a.List?
    ensures r.Ok? ==> IsResolved(r.value)
    ensures IsResolved(a) ==> r == Ok(a)
    ensures r.Err? <==> a.NoneValue? || a.EllipsisValue? || a.DictValue? || a.SetValue?
    ensures r.Err? ==> ClassOf(r.error) == (if a.NoneValue? then TypeError else NotImplementedError)
    ensures a.ByteArray? ==> r == Ok(Bytes(a.b))
    ensures a.Int? ==> r == Ok(Text(Decimal.IntToText(a.i)))
    ensures a.Bool? ==> r == Ok(Text(if a.v then "True" else "False"))
    ensures a.Complex? ==> r == Ok(Text(ComplexText(a.re, a.im)))
    ensures a.PathValue? ==> r == Ok(Text(a.path))
  {
    match a
    case Text(_) => Ok(a)
    case Bytes(_) => Ok(a)
    case ByteArray(b) => Ok(Bytes(b))
    case Int(i) => Ok(Text(Decimal.IntToText(i)))
    case Bool(v) => Ok(Text(if v then "True" else "False"))
    case Complex(re, im) => Ok(Text(ComplexText(re, im)))
    case PathValue(p) => Ok(Text(p))
    case NoneValue => Err(NoneArgument)
    case EllipsisValue => Err(Reserved(EllipsisSyntax))
    case DictValue => Err(Reserved(DictSyntax))
    case SetValue => Err(Reserved(SetSyntax))
  }

  /** Two scalars of the same kind resolve to the same argument exactly when they are equal. */
  lemma CoerceInjective(a: Arg, b: Arg)
    requires !a.List? && !b.List? && Coerce(a).Ok? && Coerce(b).Ok?
    requires (a.Int? && b.Int?) || (a.Bool? && b.Bool?) || (a.Complex? && b.Complex?) || (a.PathValue? && b.PathValue?) || (a.ByteArray? && b.ByteArray?)
    ensures Coerce(a) == Coerce(b) <==> a == b
  {
    if a.Int? {
      Decimal.IntToTextInjective(a.i, b.i);
    } else if a.Complex? {
      ComplexTextInjective(a.re, a.im, b.re, b.im);
    }
  }

  /** The arguments that are not tuples or lists, in the order they appear, at any depth. */
  function Leaves(items: seq<Arg>): (r: seq<Arg>)
    ensures forall k :: 0 <= k < |r| ==> !r[k].List?
    decreases items
  {
    if items == [] then []
    else (if items[0].List? then Leaves(items[0].items) else [items[0]]) + Leaves(items[1..])
  }

  /**
   * Resolves an argument list: flattens nested tuples and lists and coerces
   * each leaf, failing with the error of the first leaf that cannot be coerced.
   */
  function Flatten(items: seq<Arg>): (r: Result<seq<Arg>, Error>)
    ensures r.Ok? ==> AllResolved(r.value)
    decreases items
  {
    if items == [] then Ok([])
    else
      var head := if items[0].List? then Flatten(items[0].items)
                  else match Coerce(items[0]) case Ok(a) => Ok([a]) case Err(e) => Err(e);
      match head
      case Err(e) => Err(e)
      case Ok(h) =>
        match Flatten(items[1..])
        case Err(e) => Err(e)
        case Ok(t) => Ok(h + t)
  }

  /** `e` is the error of leaf `k`, and every earlier leaf coerces. */
  predicate FirstFailure(leaves: seq<Arg>, k: nat, e: Error)
    requires forall j :: 0 <= j < |leaves| ==> !leaves[j].List?
  {
    && k < |leaves|
    && Coerce(leaves[k]) == Err(e)
    && forall j :: 0 <= j < k ==> Coerce(leaves[j]).Ok?
  }

  /** `r` is the leaf-by-leaf coercion of `leaves`. */
  predicate CoercedLeaves(leaves: seq<Arg>, r: seq<Arg>)
    requires forall j :: 0 <= j < |leaves| ==> !leaves[j].List?
  {
    && |r| == |leaves|
    && forall k :: 0 <= k < |r| ==> Coerce(leaves[k]) == Ok(r[k])
  }

  /** Leaves of a concatenation are the leaves of each part. */
  lemma {:induction false} LeavesAppend(xs: seq<Arg>, ys: seq<Arg>)
    ensures Leaves(xs + ys) == Leaves(xs) + Leaves(ys)
    decreases xs
  {
    if xs == [] {
      assert xs + ys == ys;
    } else {
      assert (xs + ys)[0] == xs[0];
      assert (xs + ys)[1..] == xs[1..] + ys;
      LeavesAppend(xs[1..], ys);
      var l0 := if xs[0].List? then Leaves(xs[0].items) else [xs[0]];
      assert Leaves(xs + ys) == l0 + (Leaves(xs[1..]) + Leaves(ys));
      assert l0 + (Leaves(xs[1..]) + Leaves(ys)) == (l0 + Leaves(xs[1..])) + Leaves(ys);
    }
  }

  lemma CoercedLeavesAppend(l1: seq<Arg>, r1: seq<Arg>, l2: seq<Arg>, r2: seq<Arg>)
    requires forall j :: 0 <= j < |l1| ==> !l1[j].List?
    requires forall j :: 0 <= j < |l2| ==> !l2[j].List?
    requires CoercedLeaves(l1, r1) && CoercedLeaves(l2, r2)
    ensures CoercedLeaves(l1 + l2, r1 + r2)
  {
  }

  lemma FirstFailureInPrefix(l1: seq<Arg>, l2: seq<Arg>, k: nat, e: Error)
    requires forall j :: 0 <= j < |l1| ==> !l1[j].List?
    requires forall j :: 0 <= j < |l2| ==> !l2[j].List?
    requires FirstFailure(l1, k, e)
    ensures FirstFailure(l1 + l2, k, e)
  {
  }

  lemma FirstFailureInSuffix(l1: seq<Arg>, r1: seq<Arg>, l2: seq<Arg>, k: nat, e: Error)
    requires forall j :: 0 <= j < |l1| ==> !l1[j].List?
    requires forall j :: 0 <= j < |l2| ==> !l2[j].List?
    requires CoercedLeaves(l1, r1) && FirstFailure(l2, k, e)
    ensures FirstFailure(l1 + l2, |l1| + k, e)
  {
    var l := l1 + l2;
    forall j | 0 <= j < |l1| + k ensures Coerce(l[j]).Ok? {
      if j < |l1| {
        assert Coerce(l1[j]) == Ok(r1[j]);
      } else {
        assert l[j] == l2[j - |l1|];
      }
    }
  }

  /**
   * Resolution is flatten-then-coerce: on success the result holds, in order,
   * the coercion of every leaf of the nested argument lists; on failure the
   * error is that of the first leaf that cannot be coerced.
   */
  lemma {:induction false} FlattenSpec(items: seq<Arg>)
    ensures Flatten(items).Ok? ==> CoercedLeaves(Leaves(items), Flatten(items).value)
    ensures Flatten(items).Err? ==> exists k: nat :: FirstFailure(Leaves(items), k, Flatten(items).error)
    decreases items
  {
    if items != [] {
      var first := items[0];
      var l1 := if first.List? then Leaves(first.items) else [first];
      var l2 := Leaves(items[1..]);
      assert Leaves(items) == l1 + l2;
      var head := if first.List? then Flatten(first.items)
                  else match Coerce(first) case Ok(a) => Ok([a]) case Err(e) => Err(e);
      if first.List? {
        FlattenSpec(first.items);
      } else if head.Err? {
        assert FirstFailure(l1, 0, head.error);
      }
      FlattenSpec(items[1..]);
      match head {
        case Err(e) =>
          var k: nat :| FirstFailure(l1, k, e);
          FirstFailureInPrefix(l1, l2, k, e);
          assert Flatten(items) == Err(e);
          assert FirstFailure(Leaves(items), k, e);
        case Ok(h) =>
          match Flatten(items[1..]) {
            case Err(e) =>
              var k: nat :| FirstFailure(l2, k, e);
              FirstFailureInSuffix(l1, h, l2, k, e);
              assert Flatten(items) == Err(e);
              assert FirstFailure(Leaves(items), |l1| + k, e);
            case Ok(t) =>
              CoercedLeavesAppend(l1, h, l2, t);
          }
      }
    }
  }

  /** Resolving an already resolved argument tuple changes nothing. */
  lemma {:induction false} FlattenResolved(args: seq<Arg>)
    requires AllResolved(args)
    ensures Flatten(args) == Ok(args)
    decreases args
  {
    if args != [] {
      FlattenResolved(args[1..]);
      assert [args[0]] + args[1..] == args;
    }
  }

  /** Resolving a concatenation resolves each part, the left part's error first. */
  lemma {:induction false} FlattenAppend(xs: seq<Arg>, ys: seq<Arg>)
    ensures Flatten(xs + ys) ==
      match Flatten(xs)
      case Err(e) => Err(e)
      case Ok(a) => (match Flatten(ys) case Err(e) => Err(e) case Ok(b) => Ok(a + b))
    decreases xs
  {
    if xs == [] {
      assert xs + ys == ys;
      if Flatten(ys).Ok? {
        assert [] + Flatten(ys).value == Flatten(ys).value;
      }
    } else {
      assert (xs + ys)[0] == xs[0];
      assert (xs + ys)[1..] == xs[1..] + ys;
      FlattenAppend(xs[1..], ys);
      FlattenFirst(xs);
      FlattenFirst(xs + ys);
      JoinAssoc(Flatten([xs[0]]), Flatten(xs[1..]), Flatten(ys));
    }
  }

  /** Resolution results joined in order: the first error, or the parts concatenated. */
  function Join(r1: Result<seq<Arg>, Error>, r2: Result<seq<Arg>, Error>): (r: Result<seq<Arg>, Error>)
    ensures r.Ok? <==> r1.Ok? && r2.Ok?
    ensures r.Ok? ==> r.value == r1.value + r2.value
    ensures r1.Err? ==> r == r1
    ensures r1.Ok? && r2.Err? ==> r == r2
  {
    match r1
    case Err(e) => Err(e)
    case Ok(a) => (match r2 case Err(e) => Err(e) case Ok(b) => Ok(a + b))
  }

  /** Joining is associative. */
  lemma JoinAssoc(r1: Result<seq<Arg>, Error>, r2: Result<seq<Arg>, Error>, r3: Result<seq<Arg>, Error>)
    ensures Join(r1, Join(r2, r3)) == Join(Join(r1, r2), r3)
  {
    if r1.Ok? && r2.Ok? && r3.Ok? {
      assert r1.value + (r2.value + r3.value) == (r1.value + r2.value) + r3.value;
    }
  }

  /** Resolving a non-empty list is resolving its first element, joined with resolving the rest. */
  lemma FlattenFirst(xs: seq<Arg>)
    requires xs != []
    ensures Flatten(xs) == Join(Flatten([xs[0]]), Flatten(xs[1..]))
  {
    var x := xs[0];
    var head := if x.List? then Flatten(x.items)
                else match Coerce(x) case Ok(a) => Ok([a]) case Err(e) => Err(e);
    assert [x][0] == x && [x][1..] == [];
    assert Flatten([x]) == Join(head, Ok([]));
    if head.Ok? {
      assert head.value + [] == head.value;
    }
    assert Flatten(xs) == Join(head, Flatten(xs[1..]));
  }

  /** Argument lists made only of empty tuples and lists resolve to nothing, and only they do. */
  lemma FlattenEmpty(items: seq<Arg>)
    ensures Flatten(items) == Ok([]) <==> Leaves(items) == []
  {
    FlattenSpec(items);
  }
}
