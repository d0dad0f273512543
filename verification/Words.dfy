/** Little-endian digit strings and the numbers they denote. */
module Words {
  import opened Arith

  function Val(s: seq<nat>, b: nat): nat {
    if s == [] then 0 else s[0] + b * Val(s[1..], b)
  }

  predicate Digits(s: seq<nat>, b: nat) {
    forall i :: 0 <= i < |s| ==> s[i] < b
  }

  lemma ValCons(x: nat, s: seq<nat>, b: nat)
    ensures Val([x] + s, b) == x + b * Val(s, b)
    ensures Val([], b) == 0
  {
    assert ([x] + s)[1..] == s;
  }

  lemma {:induction false} ValSnoc(s: seq<nat>, x: nat, b: nat)
    ensures Val(s + [x], b) == Val(s, b) + x * Pow(b, |s|)
  {
    if s == [] {
      assert s + [x] == [x];
      assert Val([x], b) == x + b * Val([], b);
      assert b * 0 == 0;
    } else {
      assert (s + [x])[1..] == s[1..] + [x];
      ValSnoc(s[1..], x, b);
      var p := Pow(b, |s| - 1);
      MulDistribute(Val(s[1..], b), x * p, b);
      assert b * (x * p) == x * (b * p) by { MulAssoc(b, x, p); MulAssoc(x, b, p); }
    }
  }

  lemma {:induction false} ValConcat(s: seq<nat>, t: seq<nat>, b: nat)
    ensures Val(s + t, b) == Val(s, b) + Pow(b, |s|) * Val(t, b)
  {
    if s == [] {
      assert s + t == t;
    } else {
      assert (s + t)[1..] == s[1..] + t;
      ValConcat(s[1..], t, b);
      var p := Pow(b, |s| - 1);
      MulDistribute(Val(s[1..], b), p * Val(t, b), b);
      MulAssoc(b, p, Val(t, b));
    }
  }

  /** Splitting at position k. */
  lemma ValSplit(s: seq<nat>, k: nat, b: nat)
    requires k <= |s|
    ensures Val(s, b) == Val(s[..k], b) + Pow(b, k) * Val(s[k..], b)
  {
    assert s == s[..k] + s[k..];
    ValConcat(s[..k], s[k..], b);
  }

  lemma ValMiddle(s: seq<nat>, j: nat, l: nat, b: nat)
    requires j + l <= |s|
    ensures Val(s, b) == Val(s[..j], b) + Val(s[j..j + l], b) * Pow(b, j) + Pow(b, j + l) * Val(s[j + l..], b)
  {
    hide Val, Pow;
    ValSplit(s, j + l, b);
    ValSplit(s[..j + l], j, b);
    assert s[..j + l][..j] == s[..j] && s[..j + l][j..] == s[j..j + l];
  }

  /** Replacing l digits of s, starting at j. */
  lemma ValWindow(s: seq<nat>, t: seq<nat>, j: nat, l: nat, b: nat)
    requires |s| == |t| && j + l <= |s|
    requires s[..j] == t[..j] && s[j + l..] == t[j + l..]
    ensures Val(t, b) + Val(s[j..j + l], b) * Pow(b, j) == Val(s, b) + Val(t[j..j + l], b) * Pow(b, j)
  {
    hide Val, Pow;
    ValMiddle(s, j, l, b);
    ValMiddle(t, j, l, b);
  }

  /** One more digit of a prefix. */
  lemma ValPrefix(s: seq<nat>, k: nat, b: nat)
    requires k < |s|
    ensures Val(s[..k + 1], b) == Val(s[..k], b) + s[k] * Pow(b, k)
  {
    assert s[..k + 1] == s[..k] + [s[k]];
    ValSnoc(s[..k], s[k], b);
  }

  lemma {:induction false} ValBound(s: seq<nat>, b: nat)
    requires b > 0 && Digits(s, b)
    ensures Val(s, b) < Pow(b, |s|)
  {
    if s != [] {
      ValBound(s[1..], b);
      MulStrict(Val(s[1..], b), Pow(b, |s| - 1), b);
    }
  }

  lemma {:induction false} ValZeros(s: seq<nat>, b: nat)
    requires forall i :: 0 <= i < |s| ==> s[i] == 0
    ensures Val(s, b) == 0
  {
    if s != [] { ValZeros(s[1..], b); }
  }

  /** Zero digits on top do not change the value. */
  lemma ValTrim(s: seq<nat>, k: nat, b: nat)
    requires k <= |s| && forall i :: k <= i < |s| ==> s[i] == 0
    ensures Val(s, b) == Val(s[..k], b)
  {
    ValSplit(s, k, b);
    ValZeros(s[k..], b);
  }

  /** A digit string is determined by its length and value. */
  lemma {:induction false} ValInjective(s: seq<nat>, t: seq<nat>, b: nat)
    requires b > 0 && Digits(s, b) && Digits(t, b) && |s| == |t|
    requires Val(s, b) == Val(t, b)
    ensures s == t
  {
    if s != [] {
      var x, y := Val(s[1..], b), Val(t[1..], b);
      DivModUnique(x * b + s[0], b, x, s[0]);
      DivModUnique(y * b + t[0], b, y, t[0]);
      assert x == y && s[0] == t[0];
      ValInjective(s[1..], t[1..], b);
      assert s == [s[0]] + s[1..] && t == [t[0]] + t[1..];
    }
  }

  /** A nonzero top digit bounds the value from below. */
  lemma ValTop(s: seq<nat>, b: nat)
    requires b > 0 && s != []
    ensures Val(s, b) >= s[|s| - 1] * Pow(b, |s| - 1)
  {
    ValPrefix(s, |s| - 1, b);
    assert s[..|s| - 1 + 1] == s;
  }
}
