/** What the scalar types accept, and as what (sovereign/validation.py:20-61): each lemma is an equivalence that
    speaks of the value and the library only. */
module ScalarMeanings {
  import opened Errors
  import opened Validation
  import Text

  const TRUE_WORDS: seq<string> := ["1", "true", "yes", "on"]
  const FALSE_WORDS: seq<string> := ["0", "false", "no", "off"]

  /** `s` is the word, up to case and surrounding whitespace. */
  ghost predicate Reads(s: string, word: string) {
    exists i, j :: Around(s, i, j) && Same(s[i..j], word)
  }

  ghost predicate Around(s: string, i: int, j: int) {
    && 0 <= i <= j <= |s|
    && (forall k :: 0 <= k < i || j <= k < |s| ==> Text.IsStrSpace(s[k]))
  }

  /** Equal up to the case of letters. */
  predicate Same(s: string, word: string) {
    |s| == |word| &&
    forall k :: 0 <= k < |s| ==> s[k] == word[k] || ('A' <= s[k] <= 'Z' && word[k] as int == s[k] as int + 32)
  }

  /** A plain lower-case word, without whitespace. */
  predicate Word(w: string) {
    w != [] && forall k :: 0 <= k < |w| ==> '0' <= w[k] <= '9' || 'a' <= w[k] <= 'z'
  }

  lemma SameIsLower(s: string, w: string)
    requires Word(w)
    ensures Same(s, w) <==> Text.Lower(s) == w
  {
    if Text.Lower(s) == w {
      forall k | 0 <= k < |s|
        ensures s[k] == w[k] || ('A' <= s[k] <= 'Z' && w[k] as int == s[k] as int + 32)
      {
        assert Text.LowerChar(s[k]) == w[k];
      }
    }
  }

  /** Stripping is determined by what is left. */
  lemma {:induction false} TrimIs(s: string, i: nat, j: nat)
    requires Around(s, i, j) && i < j && !Text.IsStrSpace(s[i]) && !Text.IsStrSpace(s[j - 1])
    ensures Text.Trim(s) == s[i..j]
    decreases |s|
  {
    if i > 0 {
      assert s[1..][i - 1..j - 1] == s[i..j];
      TrimIs(s[1..], i - 1, j - 1);
    } else if j < |s| {
      assert s[..|s| - 1][i..j] == s[i..j];
      TrimIs(s[..|s| - 1], i, j);
    } else {
      assert s[i..j] == s;
    }
  }

  lemma {:induction false} TrimLeaves(s: string) returns (i: nat, j: nat)
    ensures Around(s, i, j) && Text.Trim(s) == s[i..j]
    decreases |s|
  {
    if s != [] && Text.IsStrSpace(s[0]) {
      var a, b := TrimLeaves(s[1..]);
      i, j := a + 1, b + 1;
      assert s[1..][a..b] == s[i..j];
    } else if s != [] && Text.IsStrSpace(s[|s| - 1]) {
      i, j := TrimLeaves(s[..|s| - 1]);
      assert s[..|s| - 1][i..j] == s[i..j];
    } else {
      i, j := 0, |s|;
      assert s[..] == s;
    }
  }

  lemma ReadsIs(s: string, w: string)
    requires Word(w)
    ensures Reads(s, w) <==> Text.Lower(Text.Trim(s)) == w
  {
    hide Text.Trim, Text.Lower, Same, Word;
    if Text.Lower(Text.Trim(s)) == w {
      var i, j := TrimLeaves(s);
      SameIsLower(s[i..j], w);
    }
    forall i, j | Around(s, i, j) && Same(s[i..j], w)
      ensures Text.Lower(Text.Trim(s)) == w
    {
      NoSpaceInside(s[i..j], w);
      TrimIs(s, i, j);
      SameIsLower(s[i..j], w);
    }
  }

  lemma NoSpaceInside(s: string, w: string)
    requires Word(w) && Same(s, w)
    ensures s != [] && !Text.IsStrSpace(s[0]) && !Text.IsStrSpace(s[|s| - 1])
  {
  }

  lemma WordsAreWords()
    ensures forall w :: w in TRUE_WORDS || w in FALSE_WORDS ==> Word(w)
    ensures forall w :: w in TRUE_WORDS <==> w == "1" || w == "true" || w == "yes" || w == "on"
    ensures forall w :: w in FALSE_WORDS <==> w == "0" || w == "false" || w == "no" || w == "off"
  {
  }

  /** A text is accepted as true exactly if it is one of the four words for it, likewise as false, and every other
      text is refused; of the other values only the booleans are accepted, and stay. */
  lemma BoolExactly(v: Val, env: Env, lib: Lib)
    ensures v.S? ==>
              && (Coerce(v, BoolT, env, lib) == Good(B(true)) <==> exists w :: w in TRUE_WORDS && Reads(v.s, w))
              && (Coerce(v, BoolT, env, lib) == Good(B(false)) <==> exists w :: w in FALSE_WORDS && Reads(v.s, w))
              && (Coerce(v, BoolT, env, lib) == Invalid <==>
                  forall w :: w in TRUE_WORDS + FALSE_WORDS ==> !Reads(v.s, w))
    ensures !v.S? ==> Coerce(v, BoolT, env, lib) == if v.B? then Good(v) else Invalid
  {
    hide Text.Trim, Text.Lower, Reads, Word;
    if v.S? {
      WordsAreWords();
      forall w | w in TRUE_WORDS || w in FALSE_WORDS
        ensures Reads(v.s, w) <==> Text.Lower(Text.Trim(v.s)) == w
      {
        ReadsIs(v.s, w);
      }
      var lowered := Text.Lower(Text.Trim(v.s));
      assert lowered in TRUE_WORDS || lowered in FALSE_WORDS ==> Reads(v.s, lowered);
    }
  }

  /** The integer part of a number, towards zero. */
  predicate IntegerPart(r: real, n: int) {
    if r < 0.0 then n as real - 1.0 < r <= n as real else n as real <= r < n as real + 1.0
  }

  /** An integer stays, a float becomes its integer part towards zero, a text or byte string the number the library
      parses; an infinite float crashes the validator and everything else is refused. */
  lemma IntExactly(v: Val, w: Val, env: Env, lib: Lib)
    ensures Coerce(v, IntT, env, lib) == Good(w) <==>
            && w.I?
            && match v
               case I(i) => w.i == i
               case F(Finite(r)) => IntegerPart(r, w.i)
               case S(s) => lib.parseInt(s) == Some(w.i)
               case Y(s) => lib.parseInt(s) == Some(w.i)
               case _ => false
    ensures Coerce(v, IntT, env, lib) == Crashed <==> v.F? && v.f.Infinite?
  {
  }

  /** A float stays, an integer is converted, a text or byte string becomes the number the library parses; an integer
      too large crashes the validator and everything else is refused. */
  lemma FloatExactly(v: Val, w: Val, env: Env, lib: Lib)
    ensures Coerce(v, FloatT, env, lib) == Good(w) <==>
            && w.F?
            && match v
               case F(f) => w.f == f
               case I(i) => w.f.Finite? && lib.toFloat(i) == Some(w.f.r)
               case S(s) => lib.parseFloat(s) == Some(w.f)
               case Y(s) => lib.parseFloat(s) == Some(w.f)
               case _ => false
    ensures Coerce(v, FloatT, env, lib) == Crashed <==> v.I? && lib.toFloat(v.i) == None
  {
  }

  /** A text stays, everything else is shown, if it can be; byte strings stay and texts are encoded, if they can be,
      and nothing else becomes a byte string. */
  lemma TextExactly(v: Val, w: Val, env: Env, lib: Lib)
    ensures Coerce(v, StrT, env, lib) == Good(w) <==> w.S? && (w == v || (!v.S? && lib.show(v) == Some(w.s)))
    ensures Coerce(v, StrT, env, lib) == Crashed <==> !v.S? && lib.show(v) == None
    ensures Coerce(v, BytesT, env, lib) == Good(w) <==> w.Y? && (w == v || (v.S? && lib.encode(v.s) == Some(w.bytes)))
    ensures Coerce(v, BytesT, env, lib) == Crashed <==> v.S? && lib.encode(v.s) == None
  {
  }

  /** `Any` takes everything, `None` only itself, and a bare class only its own instances: none is changed. */
  lemma UnchangedExactly(v: Val, w: Val, kind: Kind, env: Env, lib: Lib)
    ensures Coerce(v, AnyT, env, lib) == Good(v)
    ensures Coerce(v, NoneT, env, lib) == if v == NoneV then Good(v) else Invalid
    ensures Coerce(v, Bare(kind), env, lib) == if v.Coll? && v.kind == kind then Good(v) else Invalid
  {
  }
}
