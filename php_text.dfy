/**
 * The handful of PHP string semantics the plugin relies on: truthiness of
 * strings (`empty`, `if ($s)`), `explode(",", ...)` / `implode(",", ...)`,
 * `array_search` followed by `unset`, the decimal text of an integer id and
 * the `(int)` cast of a posted string.
 */
module PhpText {

  datatype Option<T> = None | Some(value: T)

  /** PHP truthiness of a string: "" and "0" are the falsy strings. */
  predicate Truthy(s: string)
    ensures |s| >= 2 ==> Truthy(s)
    ensures |s| == 1 ==> (Truthy(s) <==> s[0] != '0')
  {
    s != "" && s != "0"
  }

  /* ---------------- explode / implode on "," ---------------- */

  /** `explode(",", s)`: the pieces between commas, always at least one. */
  function Explode(s: string): (parts: seq<string>)
    ensures |parts| >= 1
    ensures forall i :: 0 <= i < |parts| ==> ',' !in parts[i]
  {
    if s == [] then [""]
    else
      var rest := Explode(s[1..]);
      if s[0] == ',' then [""] + rest
      else [[s[0]] + rest[0]] + rest[1..]
  }

  /** `implode(",", parts)`; the empty array gives "". */
  function Implode(parts: seq<string>): (s: string)
    ensures CommaFree(parts) ==> (',' in s <==> |parts| >= 2)
  {
    if parts == [] then ""
    else if |parts| == 1 then parts[0]
    else parts[0] + "," + Implode(parts[1..])
  }

  predicate CommaFree(parts: seq<string>) {
    forall i :: 0 <= i < |parts| ==> ',' !in parts[i]
  }

  /** explode followed by implode gives back the original string. */
  lemma {:induction false} ImplodeExplode(s: string)
    ensures Implode(Explode(s)) == s
  {
    if s != [] {
      var rest := Explode(s[1..]);
      ImplodeExplode(s[1..]);
      if s[0] == ',' {
        assert Explode(s) == [""] + rest;
        assert ([""] + rest)[1..] == rest;
        assert Implode([""] + rest) == "" + "," + Implode(rest);
        assert s == [','] + s[1..];
      } else {
        var parts := [[s[0]] + rest[0]] + rest[1..];
        assert Explode(s) == parts;
        if |rest| == 1 {
          assert Implode(rest) == rest[0];
          assert Implode(parts) == [s[0]] + rest[0];
          assert s == [s[0]] + s[1..];
        } else {
          assert parts[1..] == rest[1..];
          assert Implode(rest) == rest[0] + "," + Implode(rest[1..]);
          assert Implode(parts) == ([s[0]] + rest[0]) + "," + Implode(rest[1..]);
          assert s == [s[0]] + s[1..];
        }
      }
    }
  }

  lemma {:induction false} ExplodeCommaFree(s: string)
    requires ',' !in s
    ensures Explode(s) == [s]
  {
    if s != [] {
      ExplodeCommaFree(s[1..]);
      assert s == [s[0]] + s[1..];
    }
  }

  lemma {:induction false} ExplodeAfterComma(a: string, b: string)
    requires ',' !in a
    ensures Explode(a + "," + b) == [a] + Explode(b)
  {
    var s := a + "," + b;
    if a == [] {
      assert s[0] == ',' && s[1..] == b;
    } else {
      assert s[1..] == a[1..] + "," + b;
      ExplodeAfterComma(a[1..], b);
      assert [s[0]] + a[1..] == a;
    }
  }

  /** implode followed by explode gives back any non-empty list of comma-free pieces. */
  lemma {:induction false} ExplodeImplode(parts: seq<string>)
    requires |parts| >= 1 && CommaFree(parts)
    ensures Explode(Implode(parts)) == parts
  {
    if |parts| == 1 {
      ExplodeCommaFree(parts[0]);
    } else {
      ExplodeImplode(parts[1..]);
      ExplodeAfterComma(parts[0], Implode(parts[1..]));
      assert [parts[0]] + parts[1..] == parts;
    }
  }

  /* ---------------- array_search + unset ---------------- */

  /** The index `array_search($x, $s)` returns: the first position holding x. */
  function IndexOf(s: seq<string>, x: string): (i: nat)
    requires x in s
    ensures i < |s| && s[i] == x
    ensures forall j :: 0 <= j < i ==> s[j] != x
  {
    if s[0] == x then 0 else 1 + IndexOf(s[1..], x)
  }

  /** `if (($k = array_search($x, $s)) !== false) unset($s[$k]);` */
  function RemoveFirst(s: seq<string>, x: string): (r: seq<string>)
    ensures x !in s ==> r == s
    ensures x in s ==> |r| == |s| - 1 && multiset(r) == multiset(s) - multiset{x}
  {
    if x in s then
      var i := IndexOf(s, x);
      assert s == s[..i] + [x] + s[i + 1..];
      s[..i] + s[i + 1..]
    else s
  }

  /** Only the first entry equal to x goes; every other entry stays, in order. */
  lemma RemoveFirstSpec(s: seq<string>, x: string)
    ensures x !in s ==> RemoveFirst(s, x) == s
    ensures x in s ==>
      var i := IndexOf(s, x);
      |RemoveFirst(s, x)| == |s| - 1 &&
      (forall j :: 0 <= j < i ==> RemoveFirst(s, x)[j] == s[j]) &&
      (forall j :: i <= j < |s| - 1 ==> RemoveFirst(s, x)[j] == s[j + 1])
  {
  }

  lemma RemoveFirstCommaFree(s: seq<string>, x: string)
    requires CommaFree(s)
    ensures CommaFree(RemoveFirst(s, x))
  {
    if x in s {
      var i := IndexOf(s, x);
      var r := s[..i] + s[i + 1..];
      forall j | 0 <= j < |r| ensures ',' !in r[j] {
        if j < i { assert r[j] == s[j]; } else { assert r[j] == s[j + 1]; }
      }
    }
  }

  /* ---------------- decimal text of integers ---------------- */

  predicate IsDigit(c: char) {
    '0' <= c <= '9'
  }

  function DigitChar(d: nat): (c: char)
    requires d < 10
    ensures IsDigit(c)
  {
    (('0' as int) + d) as char
  }

  function DigitValue(c: char): nat
    requires IsDigit(c)
  {
    (c as int) - ('0' as int)
  }

  /** The decimal text PHP prints for a non-negative integer (no leading zeros). */
  function Decimal(n: nat): (s: string)
    ensures |s| >= 1
    ensures forall i :: 0 <= i < |s| ==> IsDigit(s[i])
    ensures Truthy(s) <==> n != 0
  {
    if n < 10 then [DigitChar(n)] else Decimal(n / 10) + [DigitChar(n % 10)]
  }

  lemma DecimalCommaFree(n: nat)
    ensures ',' !in Decimal(n)
  {
    var s := Decimal(n);
    forall i | 0 <= i < |s| ensures s[i] != ',' {
      assert IsDigit(s[i]);
    }
  }

  /** The value of a string of digits, read left to right. */
  function DigitsValue(s: string): nat
    requires forall i :: 0 <= i < |s| ==> IsDigit(s[i])
  {
    if s == [] then 0 else DigitsValue(s[..|s| - 1]) * 10 + DigitValue(s[|s| - 1])
  }

  lemma {:induction false} DecimalValue(n: nat)
    ensures DigitsValue(Decimal(n)) == n
  {
    if n >= 10 {
      var s := Decimal(n);
      DecimalValue(n / 10);
      assert s[..|s| - 1] == Decimal(n / 10);
    }
  }

  /** The decimal text of any integer, with a leading "-" when negative. */
  function IntText(i: int): string
  {
    if i < 0 then "-" + Decimal(-i) else Decimal(i)
  }

  /* ---------------- the (int) cast of a string ---------------- */

  /** Whitespace PHP skips in front of a numeric string. */
  predicate IsSpace(c: char) {
    c == ' ' || c == '\t' || c == '\n' || c == '\r' || c == '\U{B}' || c == '\U{C}'
  }

  function SkipSpace(s: string): (r: string)
    ensures |r| <= |s| && r == s[|s| - |r|..]
    ensures r != [] ==> !IsSpace(r[0])
  {
    if s != [] && IsSpace(s[0]) then SkipSpace(s[1..]) else s
  }

  /** The longest prefix of s made of digits. */
  function LeadingDigits(s: string): (r: string)
    ensures r <= s
    ensures forall i :: 0 <= i < |r| ==> IsDigit(r[i])
    ensures |r| < |s| ==> !IsDigit(s[|r|])
  {
    if s != [] && IsDigit(s[0]) then [s[0]] + LeadingDigits(s[1..]) else []
  }

  lemma {:induction false} LeadingDigitsAll(s: string)
    requires forall i :: 0 <= i < |s| ==> IsDigit(s[i])
    ensures LeadingDigits(s) == s
  {
    if s != [] {
      LeadingDigitsAll(s[1..]);
      assert [s[0]] + s[1..] == s;
    }
  }

  /**
   * `(int) $s` for a string: leading whitespace is skipped, then an optional
   * sign and the digits that follow; a string with no leading digits gives 0.
   */
  function IntCast(s: string): (r: int)
    ensures r < 0 ==> SkipSpace(s) != [] && SkipSpace(s)[0] == '-'
    ensures SkipSpace(s) == [] ==> r == 0
    ensures SkipSpace(s) != [] && !IsDigit(SkipSpace(s)[0]) && SkipSpace(s)[0] != '-' && SkipSpace(s)[0] != '+' ==> r == 0
  {
    var t := SkipSpace(s);
    if t != [] && t[0] == '-' then -(DigitsValue(LeadingDigits(t[1..])) as int)
    else if t != [] && t[0] == '+' then DigitsValue(LeadingDigits(t[1..]))
    else DigitsValue(LeadingDigits(t))
  }

  /** A plain string of digits casts to the number it spells. */
  lemma IntCastDigits(s: string)
    requires s != [] && forall i :: 0 <= i < |s| ==> IsDigit(s[i])
    ensures IntCast(s) == DigitsValue(s)
  {
    assert !IsSpace(s[0]);
    assert SkipSpace(s) == s;
    LeadingDigitsAll(s);
  }

  /** Printing an integer and casting the text back gives the integer. */
  lemma IntCastIntText(i: int)
    ensures IntCast(IntText(i)) == i
  {
    var s := IntText(i);
    var d := Decimal(if i < 0 then -i else i);
    assert !IsSpace(s[0]);
    assert SkipSpace(s) == s;
    LeadingDigitsAll(d);
    DecimalValue(if i < 0 then -i else i);
    if i < 0 {
      assert s[1..] == d;
    } else {
      assert s[0] != '-' && s[0] != '+';
    }
  }
}
