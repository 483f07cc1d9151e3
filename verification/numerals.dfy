/** Positional numerals: the decimal text JavaScript produces when a number is
    interpolated into a template string, and the lowercase hexadecimal of
    MongoDB ObjectId strings. */
module Numerals {
  import opened Http

  const DigitChars: string := "0123456789abcdef"

  predicate IsDecimalDigit(c: char) {
    '0' <= c <= '9'
  }

  /** `[0-9a-fA-F]`. */
  predicate IsHexDigit(c: char) {
    '0' <= c <= '9' || 'a' <= c <= 'f' || 'A' <= c <= 'F'
  }

  /** The digits `DigitChars` holds: `[0-9a-f]`. */
  predicate IsLowerHexDigit(c: char) {
    '0' <= c <= '9' || 'a' <= c <= 'f'
  }

  function DigitValue(c: char): nat {
    if '0' <= c <= '9' then c as int - '0' as int
    else if 'a' <= c <= 'f' then c as int - 'a' as int + 10
    else if 'A' <= c <= 'F' then c as int - 'A' as int + 10
    else 0
  }

  lemma DigitValueOf(d: nat)
    requires d < 16
    ensures DigitValue(DigitChars[d]) == d
  {
  }

  /** The digits of `n` in `base`, most significant first, without leading zeros. */
  function Render(n: nat, base: nat): (s: string)
    requires 2 <= base <= 16
    ensures |s| >= 1
    decreases n
  {
    if n < base then [DigitChars[n]]
    else
      DivBounds(n, base);
      Render(n / base, base) + [DigitChars[n % base]]
  }

  lemma DivBounds(n: nat, b: nat)
    requires 2 <= b <= n
    ensures n % b < b && 1 <= n / b < n
  {
  }

  /** Every character of a rendering is a digit of the base. */
  lemma {:induction false} RenderDigits(n: nat, base: nat)
    requires 2 <= base <= 16
    ensures forall i :: 0 <= i < |Render(n, base)| ==> DigitValue(Render(n, base)[i]) < base
    ensures forall i :: 0 <= i < |Render(n, base)| ==> IsLowerHexDigit(Render(n, base)[i])
    decreases n
  {
    if n >= base {
      DivBounds(n, base);
      RenderDigits(n / base, base);
      DigitValueOf(n % base);
    } else {
      DigitValueOf(n);
    }
  }

  /** The number a string of digits denotes in `base`. */
  function Value(s: string, base: nat): nat {
    if s == [] then 0 else Value(s[..|s| - 1], base) * base + DigitValue(s[|s| - 1])
  }

  /** Reading back a rendered number gives the number. */
  lemma {:induction false} ValueRender(n: nat, base: nat)
    requires 2 <= base <= 16
    ensures Value(Render(n, base), base) == n
    decreases n
  {
    if n < base {
      DigitValueOf(n);
      assert Render(n, base)[..0] == [];
    } else {
      DivBounds(n, base);
      var q, r := n / base, n % base;
      ValueRender(q, base);
      var p := Render(q, base);
      assert Render(n, base) == p + [DigitChars[r]];
      DigitValueOf(r);
      ValueAppend(p, DigitChars[r], base);
      DivMod(n, base);
    }
  }

  lemma ValueAppend(p: string, c: char, base: nat)
    ensures Value(p + [c], base) == Value(p, base) * base + DigitValue(c)
  {
    assert (p + [c])[..|p|] == p;
  }

  lemma DivMod(n: nat, b: nat)
    requires b > 0
    ensures (n / b) * b + n % b == n
  {
  }

  /** Rendering is injective. */
  lemma RenderInjective(m: nat, n: nat, base: nat)
    requires 2 <= base <= 16
    requires Render(m, base) == Render(n, base)
    ensures m == n
  {
    ValueRender(m, base);
    ValueRender(n, base);
  }

  /** `String(n)` for a non-negative integer. */
  function Decimal(n: nat): (s: string)
    ensures |s| >= 1 && forall i :: 0 <= i < |s| ==> IsDecimalDigit(s[i])
  {
    var s := Render(n, 10);
    RenderDigits(n, 10);
    s
  }

  function Zeros(k: nat): (z: string)
    ensures |z| == k && forall i :: 0 <= i < k ==> z[i] == '0'
  {
    seq(k, _ => '0')
  }

  /** Leading zeros do not change the value. */
  lemma {:induction false} ValueLeadingZeros(k: nat, s: string, base: nat)
    ensures Value(Zeros(k) + s, base) == Value(s, base)
    decreases |s|, k
  {
    if s == [] {
      if k > 0 {
        assert Zeros(k)[..k - 1] == Zeros(k - 1);
        ValueLeadingZeros(k - 1, [], base);
        assert Zeros(k - 1) + [] == Zeros(k - 1);
      }
      assert Zeros(k) + s == Zeros(k);
    } else {
      var t := Zeros(k) + s;
      assert t[..|t| - 1] == Zeros(k) + s[..|s| - 1];
      ValueLeadingZeros(k, s[..|s| - 1], base);
    }
  }

  /** The lowercase hexadecimal of `n`, left-padded with zeros to 24 digits
      (the width of an ObjectId string; wider when `n` needs more digits). */
  function ObjectIdHex(n: nat): (s: string)
    ensures |s| >= 24
    ensures forall i :: 0 <= i < |s| ==> IsLowerHexDigit(s[i])
  {
    var h := Render(n, 16);
    var s := if |h| < 24 then Zeros(24 - |h|) + h else h;
    RenderDigits(n, 16);
    s
  }

  /** An ObjectId string reads back as the number it was made from, so
      different numbers give different ids. */
  lemma ObjectIdHexValue(n: nat)
    ensures Value(ObjectIdHex(n), 16) == n
  {
    var h := Render(n, 16);
    ValueRender(n, 16);
    if |h| < 24 {
      ValueLeadingZeros(24 - |h|, h, 16);
    }
  }

  function Power(b: nat, e: nat): nat {
    if e == 0 then 1 else b * Power(b, e - 1)
  }

  /** A number below `base^k` needs at most `k` digits. */
  lemma {:induction false} RenderLength(n: nat, base: nat, k: nat)
    requires 2 <= base <= 16
    requires 1 <= k && n < Power(base, k)
    ensures |Render(n, base)| <= k
    decreases k
  {
    if n >= base {
      assert k >= 2;
      assert n / base < Power(base, k - 1);
      RenderLength(n / base, base, k - 1);
    }
  }

  /** Every number below 16^24 gets an id of exactly 24 hexadecimal digits. */
  lemma ObjectIdHexWidth(n: nat)
    requires n < Power(16, 24)
    ensures |ObjectIdHex(n)| == 24
  {
    RenderLength(n, 16, 24);
  }

  /** `/^[0-9a-fA-F]{24}$/`: the strings that spell an ObjectId. */
  predicate IsObjectIdString(s: string) {
    |s| == 24 && forall i :: 0 <= i < |s| ==> IsHexDigit(s[i])
  }

  /** A string of hexadecimal digits denotes a number below 16 to the power
      of its length. */
  lemma {:induction false} ValueBound(s: string)
    requires forall i :: 0 <= i < |s| ==> IsHexDigit(s[i])
    ensures Value(s, 16) < Power(16, |s|)
    decreases |s|
  {
    if s != [] {
      var init := s[..|s| - 1];
      assert forall i :: 0 <= i < |init| ==> init[i] == s[i];
      ValueBound(init);
      assert DigitValue(s[|s| - 1]) < 16;
    }
  }

  /** How Mongoose casts a string to an ObjectId: 24 hexadecimal digits, in
      either case, name the ObjectId of their value, which the database
      spells with the lower-case digits; any other string raises a CastError
      (`None`). */
  function CastObjectId(s: string): (r: Option<string>)
    ensures r.Some? <==> IsObjectIdString(s)
    ensures r.Some? ==> IsObjectIdString(r.value) && Value(r.value, 16) == Value(s, 16)
    ensures r.Some? ==> forall i :: 0 <= i < |r.value| ==> IsLowerHexDigit(r.value[i])
  {
    if IsObjectIdString(s) then
      ValueBound(s);
      ObjectIdHexWidth(Value(s, 16));
      ObjectIdHexValue(Value(s, 16));
      Some(ObjectIdHex(Value(s, 16)))
    else None
  }

  /** An id the store minted casts to itself. */
  lemma CastMintedId(n: nat)
    requires n < Power(16, 24)
    ensures CastObjectId(ObjectIdHex(n)) == Some(ObjectIdHex(n))
  {
    ObjectIdHexWidth(n);
    ObjectIdHexValue(n);
  }

  /** Casting an id the cast produced gives it back. */
  lemma CastIdempotent(s: string)
    requires IsObjectIdString(s)
    ensures CastObjectId(CastObjectId(s).value) == CastObjectId(s)
  {
  }

  /** Two ObjectId strings name the same ObjectId exactly when they denote
      the same number. */
  lemma CastSameValue(s: string, t: string)
    requires IsObjectIdString(s) && IsObjectIdString(t)
    ensures CastObjectId(s) == CastObjectId(t) <==> Value(s, 16) == Value(t, 16)
  {
  }

  /** Strings whose digits agree in value, whatever their letter case,
      denote the same number. */
  lemma {:induction false} ValueIgnoresCase(s: string, t: string)
    requires |s| == |t|
    requires forall i :: 0 <= i < |s| ==> DigitValue(s[i]) == DigitValue(t[i])
    ensures Value(s, 16) == Value(t, 16)
    decreases |s|
  {
    if s != [] {
      var n := |s| - 1;
      assert forall i :: 0 <= i < n ==> s[..n][i] == s[i] && t[..n][i] == t[i];
      ValueIgnoresCase(s[..n], t[..n]);
    }
  }

  /** An upper-case spelling of an ObjectId finds the same document as the
      lower-case one. */
  lemma CastIgnoresCase(s: string, t: string)
    requires IsObjectIdString(s) && |t| == 24
    requires forall i :: 0 <= i < 24 ==>
      (if 'a' <= s[i] <= 'f' then t[i] == (s[i] as int - 32) as char else t[i] == s[i])
    ensures CastObjectId(t) == CastObjectId(s)
  {
    assert forall i :: 0 <= i < 24 ==> IsHexDigit(t[i]) && DigitValue(s[i]) == DigitValue(t[i]);
    ValueIgnoresCase(s, t);
  }
}
