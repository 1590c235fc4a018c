/** Which unions of two scalar types are settled - coercing twice is coercing once - read off the types. */
module ScalarUnions {
  import opened Errors
  import opened Validation
  import opened Idempotence
  import Text

  predicate Scalar(tp: Ty) {
    tp.AnyT? || tp.BoolT? || tp.IntT? || tp.FloatT? || tp.StrT? || tp.BytesT? || tp.Bare?
  }

  // ---- facts about the library -------------------------------------------------------------

  /** `str(1)` is "1"; "1.5" is a float and no integer. */
  predicate KnownTexts(lib: Lib) {
    lib.show(I(1)) == Some("1") && lib.parseInt("1.5") == None && lib.parseFloat("1.5") == Some(Finite(1.5))
  }

  /** What is read as an integer is read as a float as well. */
  ghost predicate IntegersAreFloats(lib: Lib) {
    forall s :: lib.parseInt(s).Some? ==> lib.parseFloat(s).Some?
  }

  /** The text shown for a value that is neither a string nor a number is not read as a number; those for
      infinities and NaN are not read as integers. */
  ghost predicate OnlyNumbersShowNumbers(lib: Lib) {
    forall v :: lib.show(v).Some? && !v.S? && !v.I? ==>
      && (!v.F? ==> lib.parseFloat(lib.show(v).value) == None)
      && (!(v.F? && v.f.Finite?) ==> lib.parseInt(lib.show(v).value) == None)
  }

  /** A text that is not read as a number is not read as one after encoding. */
  ghost predicate EncodingMakesNoNumbers(lib: Lib) {
    forall s :: lib.encode(s).Some? ==>
      && (lib.parseInt(s) == None ==> lib.parseInt(lib.encode(s).value) == None)
      && (lib.parseFloat(s) == None ==> lib.parseFloat(lib.encode(s).value) == None)
  }

  ghost predicate Usual(lib: Lib) {
    KnownTexts(lib) && IntegersAreFloats(lib) && OnlyNumbersShowNumbers(lib) && EncodingMakesNoNumbers(lib)
  }

  /** The facts do not contradict each other. */
  lemma UsualIsPossible() returns (lib: Lib)
    ensures Usual(lib)
  {
    lib := Lib(
      (s: string) => if s == "1" then Some(1) else None,
      (s: string) => if s == "1" then Some(Finite(1.0)) else if s == "1.5" then Some(Finite(1.5)) else None,
      (i: int) => Some(i as real),
      (v: Val) => if v == I(1) then Some("1") else None,
      (s: string) => Some(s));
  }

  // ---- the decision ------------------------------------------------------------------------

  /** The first type turns some of what only the second accepts into something else. */
  predicate Rewrites(a: Ty, b: Ty) {
    (a == BoolT && b == StrT) || (a == IntT && b == FloatT) || (a == BytesT && b == StrT)
  }

  lemma LeavesAlone(v: Val, a: Ty, b: Ty, lib: Lib, x: Val)
    requires Scalar(a) && Scalar(b) && Usual(lib) && !Rewrites(a, b)
    requires CoerceScalar(v, a, lib) == Invalid && CoerceScalar(v, b, lib) == Good(x)
    ensures CoerceScalar(x, a, lib) == Invalid || CoerceScalar(x, a, lib) == Good(x)
  {
    hide Text.Lower, Text.Trim;
  }

  /** "1" is a word for true, "1.5" loses its fraction as an integer, and 1 becomes a text and then bytes. */
  lemma RewritesSomething(a: Ty, b: Ty, lib: Lib) returns (v: Val, x: Val)
    requires Rewrites(a, b) && Usual(lib)
    ensures CoerceScalar(v, a, lib) == Invalid && CoerceScalar(v, b, lib) == Good(x)
    ensures CoerceScalar(x, a, lib) != Invalid && CoerceScalar(x, a, lib) != Good(x)
  {
    if a == BoolT {
      v, x := I(1), S("1");
      Text.TrimSpaced("1");
      Text.LowerIs("1");
    } else if a == IntT {
      v, x := S("1.5"), F(Finite(1.5));
    } else {
      v, x := I(1), S("1");
    }
  }

  /** A union of two scalar types is settled if and only if it is none of `bool | str`, `int | float` and
      `bytes | str`. */
  lemma ScalarUnionExactly(a: Ty, b: Ty, env: Env, lib: Lib)
    requires Scalar(a) && Scalar(b) && Usual(lib)
    ensures Settled(Union([a, b]), env, lib) <==> !Rewrites(a, b)
  {
    hide CoerceScalar, Usual, Settled;
    UnionOfTwoExactly(a, b, env, lib);
    if Rewrites(a, b) {
      var v, x := RewritesSomething(a, b, lib);
      assert Coerce(v, a, env, lib) == CoerceScalar(v, a, lib) && Coerce(v, b, env, lib) == CoerceScalar(v, b, lib);
      assert Coerce(x, a, env, lib) == CoerceScalar(x, a, lib);
    } else {
      forall v, x | Coerce(v, a, env, lib) == Invalid && Coerce(v, b, env, lib) == Good(x)
        ensures Coerce(x, a, env, lib) == Invalid || Coerce(x, a, env, lib) == Good(x)
      {
        LeavesAlone(v, a, b, lib, x);
      }
    }
  }
}
