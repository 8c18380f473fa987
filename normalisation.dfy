/**
 The name normalisation used when a wallet name is compared with the
 disabled-wallet list: every whitespace character is removed (the
 JavaScript `replace(/\s/g, '')`) and the rest is lower-cased
 (`toLowerCase()`).
 */
module Normalisation {

  /** The characters matched by the JavaScript regular-expression class `\s`:
      the ECMAScript WhiteSpace and LineTerminator characters. */
  predicate IsWhitespace(c: char)
    ensures c as int < 128 ==> (IsWhitespace(c) <==> c == ' ' || '\t' <= c <= '\r')
    ensures IsWhitespace(c) ==> !IsUpper(c)
  {
    || c == '\t' || c == '\n' || c == '\U{000B}' || c == '\U{000C}' || c == '\r'
    || c == ' ' || c == '\U{00A0}' || c == '\U{1680}'
    || ('\U{2000}' <= c <= '\U{200A}')
    || c == '\U{2028}' || c == '\U{2029}' || c == '\U{202F}' || c == '\U{205F}'
    || c == '\U{3000}' || c == '\U{FEFF}'
  }

  predicate IsUpper(c: char) {
    'A' <= c <= 'Z'
  }

  /** Lower-cases one character (ASCII letters only). */
  function ToLowerChar(c: char): (r: char)
    ensures !IsUpper(r)
    ensures IsWhitespace(r) <==> IsWhitespace(c)
    ensures !IsUpper(c) ==> r == c
    ensures IsUpper(c) ==> 'a' <= r <= 'z' && r as int - c as int == 'a' as int - 'A' as int
  {
    if IsUpper(c) then (c as int - 'A' as int + 'a' as int) as char else c
  }

  /** `s.replace(/\s/g, '')`: the characters of `s` that are not whitespace, in order. */
  function StripWhitespace(s: string): (r: string)
    ensures |r| <= |s|
    ensures forall c :: c in r <==> c in s && !IsWhitespace(c)
  {
    if s == [] then []
    else if IsWhitespace(s[0]) then StripWhitespace(s[1..])
    else [s[0]] + StripWhitespace(s[1..])
  }

  /** `s.toLowerCase()`: same length, every upper-case letter replaced in place
      by its lower-case letter, and every other character kept where it was. */
  function ToLower(s: string): (r: string)
    ensures |r| == |s|
    ensures forall c :: c in r ==> !IsUpper(c)
    ensures forall i :: 0 <= i < |s| && !IsUpper(s[i]) ==> r[i] == s[i]
    ensures forall i :: 0 <= i < |s| && IsUpper(s[i]) ==> r[i] as int == s[i] as int + ('a' as int - 'A' as int)
  {
    seq(|s|, i requires 0 <= i < |s| => ToLowerChar(s[i]))
  }

  /** The key under which a wallet name is compared: no whitespace, no upper case. */
  function Normalise(s: string): (r: string)
    ensures forall c :: c in r ==> !IsWhitespace(c) && !IsUpper(c)
    ensures |r| <= |s|
  {
    ToLower(StripWhitespace(s))
  }

  lemma {:induction false} StripWhitespaceAppend(a: string, b: string)
    ensures StripWhitespace(a + b) == StripWhitespace(a) + StripWhitespace(b)
  {
    if a == [] {
      assert a + b == b;
    } else {
      assert (a + b)[0] == a[0];
      assert (a + b)[1..] == a[1..] + b;
      StripWhitespaceAppend(a[1..], b);
    }
  }

  /** One character: whitespace is dropped, anything else is kept. With
      `StripWhitespaceAppend` this fixes the result, order and count included. */
  lemma StripWhitespaceSingle(c: char)
    ensures StripWhitespace([c]) == if IsWhitespace(c) then [] else [c]
  {
    assert [c][1..] == [];
  }

  lemma ToLowerAppend(a: string, b: string)
    ensures ToLower(a + b) == ToLower(a) + ToLower(b)
  {
    var l := ToLower(a + b);
    var r := ToLower(a) + ToLower(b);
    assert |l| == |r|;
    forall i | 0 <= i < |l| ensures l[i] == r[i] {
      if i >= |a| {
        assert (a + b)[i] == b[i - |a|];
      }
    }
  }

  /** Normalisation works character by character: it distributes over concatenation ... */
  lemma NormaliseAppend(a: string, b: string)
    ensures Normalise(a + b) == Normalise(a) + Normalise(b)
  {
    StripWhitespaceAppend(a, b);
    ToLowerAppend(StripWhitespace(a), StripWhitespace(b));
  }

  /** ... and sends a whitespace character to nothing and any other character to its lower-case form. */
  lemma NormaliseSingle(c: char)
    ensures Normalise([c]) == if IsWhitespace(c) then [] else [ToLowerChar(c)]
  {
    StripWhitespaceSingle(c);
  }

  /** A name without whitespace and upper-case letters is its own normal form,
      so distinct such names have distinct normal forms. */
  lemma NormaliseFixed(s: string)
    requires forall c :: c in s ==> !IsWhitespace(c) && !IsUpper(c)
    ensures Normalise(s) == s
  {
    StripWhitespaceFixed(s);
  }

  /** A string without whitespace is left as it is by the stripping step. */
  lemma {:induction false} StripWhitespaceFixed(s: string)
    requires forall c :: c in s ==> !IsWhitespace(c)
    ensures StripWhitespace(s) == s
  {
    if s != [] {
      assert s[0] in s;
      assert forall c :: c in s[1..] ==> c in s;
      StripWhitespaceFixed(s[1..]);
    }
  }

  lemma ToLowerCons(c: char, s: string)
    ensures ToLower([c] + s) == [ToLowerChar(c)] + ToLower(s)
  {
    var l := ToLower([c] + s);
    var r := [ToLowerChar(c)] + ToLower(s);
    assert |l| == |r|;
    forall i | 0 <= i < |l| ensures l[i] == r[i] {
      if i > 0 {
        assert ([c] + s)[i] == s[i - 1];
      }
    }
  }

  /** Lower-casing never creates or removes whitespace, so the two steps commute. */
  lemma {:induction false} StripWhitespaceToLower(s: string)
    ensures StripWhitespace(ToLower(s)) == ToLower(StripWhitespace(s))
  {
    if s != [] {
      var rest := StripWhitespace(s[1..]);
      assert s == [s[0]] + s[1..];
      ToLowerCons(s[0], s[1..]);
      StripWhitespaceToLower(s[1..]);
      if !IsWhitespace(s[0]) {
        ToLowerCons(s[0], rest);
      }
    }
  }

  /** Normalising twice is the same as normalising once. */
  lemma NormaliseIdempotent(s: string)
    ensures Normalise(Normalise(s)) == Normalise(s)
  {
    var n := Normalise(s);
    StripWhitespaceFixed(n);
    assert ToLower(n) == n;
  }

  /** Whitespace anywhere in a name does not change its normal form. */
  lemma NormaliseIgnoresWhitespace(a: string, w: char, b: string)
    requires IsWhitespace(w)
    ensures Normalise(a + [w] + b) == Normalise(a + b)
  {
    assert StripWhitespace([w]) == [] by {
      assert [w][1..] == [];
    }
    StripWhitespaceAppend(a, [w]);
    assert StripWhitespace(a + [w]) == StripWhitespace(a);
    StripWhitespaceAppend(a + [w], b);
    StripWhitespaceAppend(a, b);
    assert StripWhitespace(a + [w] + b) == StripWhitespace(a + b);
  }

  /** Letter case does not change the normal form. */
  lemma NormaliseIgnoresCase(s: string)
    ensures Normalise(ToLower(s)) == Normalise(s)
  {
    StripWhitespaceToLower(s);
    var t := StripWhitespace(s);
    assert ToLower(ToLower(t)) == ToLower(t);
  }

  /** Two names that differ only in the case of their first letter have the same normal form. */
  lemma NormaliseIgnoresCaseOfFirst(c: char, d: char, t: string)
    requires ToLowerChar(c) == ToLowerChar(d)
    ensures Normalise([c] + t) == Normalise([d] + t)
  {
    ToLowerCons(c, t);
    ToLowerCons(d, t);
    NormaliseIgnoresCase([c] + t);
    NormaliseIgnoresCase([d] + t);
  }

  /** The spelling in the disabled-wallet configuration ("Wallet Connect")
      and the module name ("walletConnect") have the same normal form. */
  lemma WalletConnectSpellingsAgree()
    ensures Normalise("Wallet Connect") == Normalise("walletConnect")
  {
    assert "Wallet" + [' '] + "Connect" == "Wallet Connect";
    assert "Wallet" + "Connect" == ['W'] + "alletConnect";
    assert "walletConnect" == ['w'] + "alletConnect";
    NormaliseIgnoresWhitespace("Wallet", ' ', "Connect");
    NormaliseIgnoresCaseOfFirst('W', 'w', "alletConnect");
  }
}
