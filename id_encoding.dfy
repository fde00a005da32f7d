/**
 * The fixed-length base-62 encoder behind snippet ids: `intPow` and `baseN`
 * (store.go:260-281), with the decoding that shows the encoding loses nothing.
 */
module IdEncoding {
  import opened Wrappers
  import Text

  /** The `n` consecutive characters with code points `first`, `first + 1`, ... */
  function CharRange(first: nat, n: nat): (r: string)
    requires first + n < 0xD800
    ensures |r| == n
    ensures forall k :: 0 <= k < n ==> r[k] as int == first + k
    decreases n
  {
    if n == 0 then [] else [first as char] + CharRange(first + 1, n - 1)
  }

  /** The id alphabet: a-z, then A-Z, then 0-9 (store.go:22). */
  const IdChars: string := CharRange('a' as int, 26) + CharRange('A' as int, 26) + CharRange('0' as int, 10)

  lemma LowerCaseLetters()
    ensures CharRange('a' as int, 26) == "abcdefghijklmnopqrstuvwxyz"
  {
  }

  lemma UpperCaseLetters()
    ensures CharRange('A' as int, 26) == "ABCDEFGHIJKLMNOPQRSTUVWXYZ"
  {
  }

  lemma DecimalDigits()
    ensures CharRange('0' as int, 10) == "0123456789"
  {
  }

  /** The alphabet spelled out, in the order the server declares it. */
  lemma IdCharsLiteral()
    ensures IdChars == "abcdefghijklmnopqrstuvwxyz" + "ABCDEFGHIJKLMNOPQRSTUVWXYZ" + "0123456789"
  {
    LowerCaseLetters();
    UpperCaseLetters();
    DecimalDigits();
  }

  /** No character occurs twice. */
  ghost predicate Distinct(chars: string)
  {
    forall i, j :: 0 <= i < j < |chars| ==> chars[i] != chars[j]
  }

  /** The code point at each position of the alphabet. */
  lemma IdCharAt(k: nat)
    requires k < 62
    ensures |IdChars| == 62
    ensures IdChars[k] as int == if k < 26 then 'a' as int + k else if k < 52 then 'A' as int + k - 26 else '0' as int + k - 52
  {
    var lower, upper, digits := CharRange('a' as int, 26), CharRange('A' as int, 26), CharRange('0' as int, 10);
    assert IdChars == lower + upper + digits;
    if k < 26 {
      assert IdChars[k] == lower[k];
    } else if k < 52 {
      assert IdChars[k] == upper[k - 26];
    } else {
      assert IdChars[k] == digits[k - 52];
    }
  }

  lemma IdCharsDistinct()
    ensures |IdChars| == 62 && Distinct(IdChars)
  {
    IdCharAt(0);
    forall i, j | 0 <= i < j < |IdChars|
      ensures IdChars[i] != IdChars[j]
    {
      IdCharAt(i);
      IdCharAt(j);
    }
  }

  /** The characters of the id alphabet, by range. */
  predicate IsIdChar(c: char)
  {
    'a' <= c <= 'z' || 'A' <= c <= 'Z' || '0' <= c <= '9'
  }

  lemma IdCharsAre(c: char)
    ensures c in IdChars <==> IsIdChar(c)
  {
    IdCharAt(0);
    if c in IdChars {
      var k :| 0 <= k < |IdChars| && IdChars[k] == c;
      IdCharAt(k);
    }
    if IsIdChar(c) {
      var k := if 'a' <= c <= 'z' then c as int - 'a' as int
        else if 'A' <= c <= 'Z' then 26 + c as int - 'A' as int
        else 52 + c as int - '0' as int;
      IdCharAt(k);
      assert IdChars[k] as int == c as int;
    }
  }

  /** A string of id characters. */
  predicate IdString(s: string)
  {
    forall k :: 0 <= k < |s| ==> IsIdChar(s[k])
  }

  lemma IdStringOver(s: string)
    ensures IdString(s) <==> Over(s, IdChars)
  {
    forall k | 0 <= k < |s| ensures IsIdChar(s[k]) <==> s[k] in IdChars {
      IdCharsAre(s[k]);
    }
  }

  /** Every character is taken from `chars`. */
  predicate Over(s: string, chars: string)
  {
    forall k :: 0 <= k < |s| ==> s[k] in chars
  }

  /** Mathematical power b^e. */
  function Pow(b: int, e: nat): int
  {
    if e == 0 then 1 else b * Pow(b, e - 1)
  }

  lemma {:induction false} PowPositive(b: int, e: nat)
    requires b >= 1
    ensures Pow(b, e) >= 1
  {
    if e > 0 { PowPositive(b, e - 1); }
  }

  /** With a base of at least two, the number of ids of length `e` exceeds `e`. */
  lemma {:induction false} PowExceeds(b: int, e: nat)
    requires b >= 2
    ensures Pow(b, e) > e
  {
    if e > 0 {
      PowExceeds(b, e - 1);
      PowPositive(b, e - 1);
    }
  }

  /**
   * intPow (store.go:260-266): repeated multiplication, `exp` times; a negative
   * exponent runs the loop zero times and gives 1.
   */
  method IntPow(base: int, exp: int) returns (result: int)
    ensures exp <= 0 ==> result == 1
    ensures exp >= 0 ==> result == Pow(base, exp)
  {
    result := 1;
    var i := 0;
    while i < exp
      invariant 0 <= i <= (if exp < 0 then 0 else exp)
      invariant result == Pow(base, i)
    {
      result := result * base;
      i := i + 1;
    }
  }

  /** The `length` lowest base-`base` digits of `num`, most significant first. */
  function Digits(num: nat, base: nat, length: nat): (ds: seq<nat>)
    requires base > 0
    ensures |ds| == length
    ensures forall k :: 0 <= k < length ==> ds[k] < base
    decreases length
  {
    DivMod(num, base);
    if length == 0 then [] else Digits(num / base, base, length - 1) + [num % base]
  }

  /** The number that big-endian digits `ds` stand for. */
  function Value(ds: seq<nat>, base: nat): nat
  {
    if ds == [] then 0 else Value(ds[..|ds| - 1], base) * base + ds[|ds| - 1]
  }

  /** Euclidean division by a positive base. */
  lemma DivMod(n: nat, b: nat)
    requires b > 0
    ensures 0 <= n % b < b && n == (n / b) * b + n % b
  {
  }

  lemma {:induction false} MulAtLeast(x: int, b: int)
    requires x >= 1 && b >= 0
    ensures x * b >= b
  {
    if x > 1 {
      MulAtLeast(x - 1, b);
      assert x * b == (x - 1) * b + b;
    }
  }

  lemma Distributes(x: int, y: int, b: int)
    ensures (x - y) * b == x * b - y * b
  {
  }

  lemma MulMono(x: int, y: int, b: int)
    requires x <= y && b >= 0
    ensures x * b <= y * b
  {
    Distributes(y, x, b);
    if x < y { MulAtLeast(y - x, b); }
  }

  /** Quotient and remainder are determined by `q * b + d` with `d < b`. */
  lemma DivModOf(q: nat, b: nat, d: nat)
    requires d < b
    ensures (q * b + d) / b == q && (q * b + d) % b == d
  {
    var n := q * b + d;
    DivMod(n, b);
    var q', d' := n / b, n % b;
    Distributes(q', q, b);
    Distributes(q, q', b);
    if q' > q { MulAtLeast(q' - q, b); }
    if q > q' { MulAtLeast(q - q', b); }
  }

  lemma DivBelow(n: nat, b: nat, p: nat)
    requires b > 0 && n < b * p
    ensures n / b < p
  {
    DivMod(n, b);
    var q := n / b;
    if q >= p {
      MulMono(p, q, b);
    }
  }

  /** Reading the digits back gives the number, while it fits in `length` digits. */
  lemma {:induction false} ValueOfDigits(num: nat, base: nat, length: nat)
    requires base > 0 && num < Pow(base, length)
    ensures Value(Digits(num, base, length), base) == num
    decreases length
  {
    if length > 0 {
      var ds := Digits(num, base, length);
      var q, d := num / base, num % base;
      DivMod(num, base);
      assert Pow(base, length) == base * Pow(base, length - 1);
      DivBelow(num, base, Pow(base, length - 1));
      ValueOfDigits(q, base, length - 1);
      var front := Digits(q, base, length - 1);
      assert ds == front + [d];
      assert ds[..length - 1] == front;
      assert Value(ds, base) == Value(front, base) * base + d;
    }
  }

  /** Digit strings are exactly the numbers below base^length: the value fits, and its digits are the string. */
  lemma {:induction false} DigitsOfValue(ds: seq<nat>, base: nat)
    requires base > 0
    requires forall k :: 0 <= k < |ds| ==> ds[k] < base
    ensures Value(ds, base) < Pow(base, |ds|)
    ensures Digits(Value(ds, base), base, |ds|) == ds
  {
    if ds != [] {
      var n := |ds|;
      var init, d := ds[..n - 1], ds[n - 1];
      DigitsOfValue(init, base);
      var v := Value(init, base);
      assert Value(ds, base) == v * base + d;
      DivModOf(v, base, d);
      var p := Pow(base, n - 1);
      assert Pow(base, n) == base * p;
      MulMono(v, p - 1, base);
      Distributes(p, 1, base);
      assert ds == init + [d];
    }
  }

  /** The characters of `chars` at the given digit positions. */
  function Spell(ds: seq<nat>, chars: string): (s: string)
    requires forall k :: 0 <= k < |ds| ==> ds[k] < |chars|
    ensures |s| == |ds|
    ensures forall k :: 0 <= k < |ds| ==> s[k] == chars[ds[k]]
  {
    seq(|ds|, k requires 0 <= k < |ds| => chars[ds[k]])
  }

  /** What baseN produces: `num` as `length` big-endian digits written with `chars`. */
  function Encode(num: nat, chars: string, length: nat): (s: string)
    requires |chars| > 0
    ensures |s| == length && Over(s, chars)
  {
    Spell(Digits(num, |chars|, length), chars)
  }

  /** The inverse reading: each character's position in `chars`, taken as a big-endian number. */
  function Decode(s: string, chars: string): nat
  {
    Value(seq(|s|, k requires 0 <= k < |s| => Text.Find(chars, s[k])), |chars|)
  }

  lemma FindDistinct(chars: string, d: nat)
    requires Distinct(chars) && d < |chars|
    ensures Text.Find(chars, chars[d]) == d
  {
  }

  /** Decoding an encoding gives the number back (with distinct characters). */
  lemma DecodeEncode(num: nat, chars: string, length: nat)
    requires |chars| > 0 && Distinct(chars) && num < Pow(|chars|, length)
    ensures Decode(Encode(num, chars, length), chars) == num
  {
    var ds := Digits(num, |chars|, length);
    var s := Encode(num, chars, length);
    var found := seq(|s|, k requires 0 <= k < |s| => Text.Find(chars, s[k]));
    forall k | 0 <= k < length ensures found[k] == ds[k] {
      FindDistinct(chars, ds[k]);
    }
    assert found == ds;
    ValueOfDigits(num, |chars|, length);
  }

  /** Every string over `chars` is an encoding: of its decoding, which lies below |chars|^|s|. */
  lemma EncodeDecode(s: string, chars: string)
    requires |chars| > 0 && Over(s, chars)
    ensures Decode(s, chars) < Pow(|chars|, |s|)
    ensures Encode(Decode(s, chars), chars, |s|) == s
  {
    var found := seq(|s|, k requires 0 <= k < |s| => Text.Find(chars, s[k]));
    forall k | 0 <= k < |s| ensures found[k] < |chars| && chars[found[k]] == s[k] {
      assert s[k] in chars;
    }
    DigitsOfValue(found, |chars|);
  }

  /** Two numbers below |chars|^length with the same encoding are equal. */
  lemma EncodeInjective(a: nat, b: nat, chars: string, length: nat)
    requires |chars| > 0 && Distinct(chars)
    requires a < Pow(|chars|, length) && b < Pow(|chars|, length)
    requires Encode(a, chars, length) == Encode(b, chars, length)
    ensures a == b
  {
    DecodeEncode(a, chars, length);
    DecodeEncode(b, chars, length);
  }

  /** Why baseN refused: the number needs more than `length` digits. */
  datatype EncodeError = TooLarge(num: int, length: int, base: int)

  /** The last of the `i` low digits of `n` is `n % base`; the ones before it are those of `n / base`. */
  lemma DigitsPrefix(num: nat, n: nat, base: nat, length: nat, i: nat)
    requires base > 0 && 0 < i <= length
    requires Digits(num, base, length)[..i] == Digits(n, base, i)
    ensures Digits(num, base, length)[i - 1] == n % base
    ensures Digits(num, base, length)[..i - 1] == Digits(n / base, base, i - 1)
  {
    var all := Digits(num, base, length);
    var low := Digits(n / base, base, i - 1);
    assert all[..i] == low + [n % base];
    assert all[i - 1] == all[..i][i - 1] == n % base;
    assert all[..i - 1] == all[..i][..i - 1] == (low + [n % base])[..i - 1] == low;
  }

  /**
   * The digit loop of baseN (store.go:274-279): fills `length` characters
   * from the right, one base-|chars| digit of `num` at a time.
   */
  method FillDigits(num: nat, chars: string, length: nat) returns (s: string)
    requires |chars| > 0
    ensures s == Encode(num, chars, length)
  {
    var base := |chars|;
    var res := new char[length];
    var n: nat := num;
    var i := length;
    ghost var all := Digits(num, base, length);
    assert all[..length] == all;
    while i > 0
      invariant 0 <= i <= length
      invariant all[..i] == Digits(n, base, i)
      invariant forall k :: i <= k < length ==> res[k] == chars[all[k]]
    {
      DivMod(n, base);
      DigitsPrefix(num, n, base, length, i);
      i := i - 1;
      res[i] := chars[n % base];
      n := n / base;
    }
    s := res[..];
    assert s == Spell(all, chars);
  }

  /**
   * baseN (store.go:268-281): fails when `num` exceeds base^length - 1, and
   * otherwise writes `num` as `length` digits over `chars`.
   */
  method BaseN(num: nat, chars: string, length: nat) returns (r: Result<string, EncodeError>)
    requires |chars| > 0
    ensures r.Success? <==> num < Pow(|chars|, length)
    ensures r.Failure? ==> r.error == TooLarge(num, length, |chars|)
    ensures r.Success? ==> r.value == Encode(num, chars, length)
  {
    var base := |chars|;
    var maxNum := IntPow(base, length);
    maxNum := maxNum - 1;
    if num > maxNum {
      return Failure(TooLarge(num, length, base));
    }
    var s := FillDigits(num, chars, length);
    return Success(s);
  }
}
