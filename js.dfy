/**
 * The slice of JavaScript's value semantics that the school dashboard relies on:
 * dynamically shaped values, truthiness, `parseInt`/`parseFloat` on decimal text,
 * `Math.round`, and the string operations the pages call (`trim`, `toLowerCase`,
 * `includes`, `join`, `split`).
 */
module Js {

  datatype Option<+T> = None | Some(value: T)

  /**
   * A JavaScript value as the modelled code stores, merges and compares it.
   * Numbers are exact reals; NaN is its own constructor.
   */
  datatype Value =
    | Undefined
    | Null
    | Bool(b: bool)
    | Num(n: real)
    | NaN
    | Str(s: string)
    | List(items: seq<Value>)
    | Obj(fields: map<string, Value>)

  /** A plain object: its own enumerable keys and their values. */
  type Fields = map<string, Value>

  /** `obj[key]`: a key the object does not have reads as `undefined`. */
  function Get(m: Fields, key: string): (v: Value)
    ensures key !in m ==> v == Undefined
  {
    if key in m then m[key] else Undefined
  }

  /** JavaScript truthiness (`!!v`). */
  predicate Truthy(v: Value)
  {
    match v
    case Undefined => false
    case Null => false
    case NaN => false
    case Bool(b) => b
    case Num(n) => n != 0.0
    case Str(s) => s != ""
    case List(_) => true
    case Obj(_) => true
  }

  /** `a || b`: the first operand when it is truthy, the second otherwise. */
  function Or(a: Value, b: Value): (r: Value)
    ensures Truthy(a) ==> r == a
    ensures !Truthy(a) ==> r == b
  {
    if Truthy(a) then a else b
  }

  /**
   * `a === b` for the values the model compares: primitives compare by value, NaN equals
   * nothing (not even NaN); arrays and objects are compared by identity in JavaScript,
   * which a value model cannot see, so they never compare equal here.
   */
  predicate StrictEquals(a: Value, b: Value)
  {
    a == b && !a.NaN? && !a.List? && !a.Obj?
  }

  /** The properties of an object value, or `{}` for anything else (`{...v}`). */
  function Spread(v: Value): Fields
  {
    if v.Obj? then v.fields else map[]
  }

  // ---------------------------------------------------------------------------
  // Numbers

  /** `Math.round`: halves round towards positive infinity. */
  function Round(x: real): (r: int)
    ensures x - 0.5 < r as real <= x + 0.5
  {
    (x + 0.5).Floor
  }

  /** Truncation towards zero, as `parseInt` reads the text of a finite number. */
  function Trunc(x: real): (r: int)
    ensures x >= 0.0 ==> 0.0 <= r as real <= x < r as real + 1.0
    ensures x < 0.0 ==> x <= r as real <= 0.0 && (r as real) - 1.0 < x
  {
    if x >= 0.0 then x.Floor else -((-x).Floor)
  }

  predicate IsDigit(c: char)
  {
    '0' <= c <= '9'
  }

  function DigitValue(c: char): (d: nat)
    requires IsDigit(c)
    ensures d < 10
  {
    c as int - '0' as int
  }

  predicate AllDigits(s: string)
  {
    forall i :: 0 <= i < |s| ==> IsDigit(s[i])
  }

  /** The number a string of decimal digits denotes, read most significant digit first. */
  function DigitsValue(s: string): (n: nat)
    requires AllDigits(s)
  {
    if s == [] then 0 else 10 * DigitsValue(s[..|s| - 1]) + DigitValue(s[|s| - 1])
  }

  /** The length of the longest prefix of `s` made of decimal digits. */
  function DigitRun(s: string): (k: nat)
    ensures k <= |s| && AllDigits(s[..k])
    ensures k < |s| ==> !IsDigit(s[k])
  {
    if s != [] && IsDigit(s[0]) then
      var k := 1 + DigitRun(s[1..]);
      assert s[..k] == [s[0]] + s[1..][..k - 1];
      k
    else 0
  }

  /** The sign `parseInt` and `parseFloat` accept in front of the digits. */
  function SignOf(t: string): int
  {
    if t != [] && t[0] == '-' then -1 else 1
  }

  /**
   * The number `parseFloat(s)` reads carries a minus sign. Only for a zero does the value alone
   * not show it: "-0" reads as -0, which divides differently from 0.
   */
  predicate MinusSign(s: string)
  {
    SignOf(TrimStart(s)) == -1
  }

  function Unsigned(t: string): (u: string)
    ensures |u| <= |t|
  {
    if t != [] && (t[0] == '-' || t[0] == '+') then t[1..] else t
  }

  /**
   * `parseInt(s)` in base 10: leading white space is skipped, one sign is accepted, then the
   * longest run of decimal digits is read; without any digit the result is NaN (None).
   */
  function ParseIntString(s: string): (r: Option<int>)
    ensures r.Some? <==> DigitRun(Unsigned(TrimStart(s))) > 0
  {
    var u := Unsigned(TrimStart(s));
    var k := DigitRun(u);
    if k == 0 then None else Some(SignOf(TrimStart(s)) * DigitsValue(u[..k]))
  }

  /** `parseInt(v)` on the values the model passes to it. */
  function ParseInt(v: Value): Option<int>
  {
    match v
    case Str(s) => ParseIntString(s)
    case Num(n) => Some(Trunc(n))
    case _ => None
  }

  /** The number `parseInt` produces, as a value: NaN when nothing could be read. */
  function IntValue(o: Option<int>): (v: Value)
    ensures v.NaN? <==> o.None?
  {
    if o.Some? then Num(o.value as real) else NaN
  }

  function Pow10(k: nat): (p: nat)
    ensures p >= 1
  {
    if k == 0 then 1 else 10 * Pow10(k - 1)
  }

  /**
   * `parseFloat(s)` on decimal text: leading white space, one sign, digits, and an optional
   * fraction `.digits`; at least one digit must be read, otherwise the result is NaN (None).
   */
  function ParseFloatString(s: string): Option<real>
  {
    var t := TrimStart(s);
    var u := Unsigned(t);
    var k := DigitRun(u);
    var whole := DigitsValue(u[..k]);
    var rest := u[k..];
    var f := if rest != [] && rest[0] == '.' then DigitRun(rest[1..]) else 0;
    var frac := if f > 0 then DigitsValue(rest[1..][..f]) as real / Pow10(f) as real else 0.0;
    if k == 0 && f == 0 then None else Some(SignOf(t) as real * (whole as real + frac))
  }

  // ---------------------------------------------------------------------------
  // Strings

  /** The white space `trim` removes and the regular-expression class `\s` matches. */
  predicate IsSpace(c: char)
  {
    c == ' ' || c == '\t' || c == '\n' || c == '\r' || c == '\U{B}' || c == '\U{C}'
    || c == '\U{A0}' || c == '\U{FEFF}'
  }

  function TrimStart(s: string): (r: string)
    ensures r == [] || !IsSpace(r[0])
    ensures |r| <= |s|
  {
    if s != [] && IsSpace(s[0]) then TrimStart(s[1..]) else s
  }

  lemma {:induction false} TrimStartIsSuffix(s: string)
    ensures TrimStart(s) == s[|s| - |TrimStart(s)|..]
    ensures forall i :: 0 <= i < |s| - |TrimStart(s)| ==> IsSpace(s[i])
  {
    if s != [] && IsSpace(s[0]) {
      TrimStartIsSuffix(s[1..]);
    }
  }

  function TrimEnd(s: string): (r: string)
    ensures r == [] || !IsSpace(r[|r| - 1])
    ensures |r| <= |s| && r == s[..|r|]
    ensures forall i :: |r| <= i < |s| ==> IsSpace(s[i])
  {
    if s != [] && IsSpace(s[|s| - 1]) then TrimEnd(s[..|s| - 1]) else s
  }

  /** `s.trim()`. */
  function Trim(s: string): (r: string)
    ensures r == [] || (!IsSpace(r[0]) && !IsSpace(r[|r| - 1]))
  {
    TrimEnd(TrimStart(s))
  }

  /** No white space at either end. */
  predicate IsTrimmed(s: string)
  {
    s == [] || (!IsSpace(s[0]) && !IsSpace(s[|s| - 1]))
  }

  /** Trimming an already trimmed string changes nothing, so `trim` is idempotent. */
  lemma TrimTrimmed(s: string)
    requires IsTrimmed(s)
    ensures Trim(s) == s
  {
  }

  /** Trimming keeps a contiguous piece of the text: the characters after the leading white space. */
  lemma TrimIsInfix(s: string)
    ensures |s| - |TrimStart(s)| + |Trim(s)| <= |s|
    ensures Trim(s) == s[|s| - |TrimStart(s)|..|s| - |TrimStart(s)| + |Trim(s)|]
  {
    TrimStartIsSuffix(s);
  }

  /** Trimming a string with no upper-case letter leaves none. */
  lemma TrimKeepsNoUpper(s: string)
    requires HasNoUpper(s)
    ensures HasNoUpper(Trim(s))
  {
    var start, t := |s| - |TrimStart(s)|, Trim(s);
    TrimIsInfix(s);
    forall i | 0 <= i < |t| ensures !('A' <= t[i] <= 'Z') {
      assert t[i] == s[start + i];
    }
  }

  /** A string trims to "" exactly when every character is white space. */
  lemma {:induction false} TrimEmptyIffBlank(s: string)
    ensures Trim(s) == "" <==> forall i :: 0 <= i < |s| ==> IsSpace(s[i])
  {
    TrimStartIsSuffix(s);
    var t := TrimStart(s);
    if Trim(s) == "" {
      assert t == [];
    } else {
      assert t != [] && !IsSpace(t[0]);
      assert s[|s| - |t|] == t[0];
    }
  }

  /** Lower-cases the ASCII letters; every other character is kept. */
  function LowerChar(c: char): (d: char)
    ensures !('A' <= d <= 'Z')
    ensures IsSpace(d) <==> IsSpace(c)
  {
    if 'A' <= c <= 'Z' then (c as int + 32) as char else c
  }

  /** `s.toLowerCase()` on ASCII letters. */
  function ToLower(s: string): (r: string)
    ensures |r| == |s|
    ensures forall i :: 0 <= i < |s| ==> r[i] == LowerChar(s[i])
  {
    seq(|s|, i requires 0 <= i < |s| => LowerChar(s[i]))
  }

  predicate HasNoUpper(s: string)
  {
    forall i :: 0 <= i < |s| ==> !('A' <= s[i] <= 'Z')
  }

  predicate IsPrefix(p: string, s: string)
  {
    |p| <= |s| && s[..|p|] == p
  }

  /** `s.includes(t)`: t occurs in s as a contiguous substring. */
  predicate Includes(s: string, t: string)
    decreases |s|
  {
    IsPrefix(t, s) || (s != [] && Includes(s[1..], t))
  }

  /** t occurs in s starting at index i. */
  predicate OccursAt(s: string, t: string, i: int)
  {
    0 <= i && i + |t| <= |s| && s[i..i + |t|] == t
  }

  /** `includes` agrees with the textbook definition of a substring occurrence. */
  lemma {:induction false} IncludesIff(s: string, t: string)
    ensures Includes(s, t) <==> exists i :: OccursAt(s, t, i)
    decreases |s|
  {
    if IsPrefix(t, s) {
      assert OccursAt(s, t, 0);
    } else if s == [] {
      assert forall i :: !OccursAt(s, t, i);
    } else {
      IncludesIff(s[1..], t);
      if Includes(s[1..], t) {
        var i :| OccursAt(s[1..], t, i);
        assert OccursAt(s, t, i + 1);
      } else {
        forall i ensures !OccursAt(s, t, i) {
          if 0 < i && i + |t| <= |s| {
            TailSlice(s, i, |t|);
            assert !OccursAt(s[1..], t, i - 1);
          } else if i == 0 && |t| <= |s| {
            assert s[0..|t|] == s[..|t|];
          }
        }
      }
    }
  }

  /** A slice of s that skips its first character is the same slice of s's tail, shifted by one. */
  lemma TailSlice(s: string, i: int, n: nat)
    requires 0 < i && i + n <= |s|
    ensures s[i..i + n] == s[1..][i - 1..i - 1 + n]
  {
    var a, b := s[i..i + n], s[1..][i - 1..i - 1 + n];
    forall k | 0 <= k < n ensures a[k] == b[k] {
      assert a[k] == s[i + k];
    }
    assert a == b;
  }

  /** Every string includes the empty string, which is why an empty search term keeps every record. */
  lemma IncludesEmpty(s: string)
    ensures Includes(s, "")
  {
    assert IsPrefix("", s);
  }

  /** `xs.join(sep)`. */
  function Join(xs: seq<string>, sep: string): string
  {
    if xs == [] then ""
    else if |xs| == 1 then xs[0]
    else xs[0] + sep + Join(xs[1..], sep)
  }

  /** The index of the first occurrence of `c` in `s`, if any. */
  function IndexOfChar(s: string, c: char): (r: Option<nat>)
    ensures r.Some? ==> r.value < |s| && s[r.value] == c && c !in s[..r.value]
    ensures r.None? ==> c !in s
  {
    if s == [] then None
    else if s[0] == c then Some(0)
    else
      var r := IndexOfChar(s[1..], c);
      if r.None? then None
      else
        assert s[..r.value + 1] == [s[0]] + s[1..][..r.value];
        Some(r.value + 1)
  }

  /** `s.split(c)` for a one-character separator: there is always at least one piece. */
  function Split(s: string, c: char): (r: seq<string>)
    ensures |r| >= 1
    decreases |s|
  {
    match IndexOfChar(s, c)
    case None => [s]
    case Some(i) => [s[..i]] + Split(s[i + 1..], c)
  }

  lemma {:induction false} IndexOfCharAfter(a: string, c: char, b: string)
    requires c !in a
    ensures IndexOfChar(a + [c] + b, c) == Some(|a|)
  {
    if a != [] {
      assert (a + [c] + b)[1..] == a[1..] + [c] + b;
      IndexOfCharAfter(a[1..], c, b);
    }
  }

  /** Splitting a joined list at its separator gives the list back when no piece holds the separator. */
  lemma {:induction false} SplitJoin(xs: seq<string>, c: char)
    requires xs != []
    requires forall k :: 0 <= k < |xs| ==> c !in xs[k]
    ensures Split(Join(xs, [c]), c) == xs
  {
    if |xs| == 1 {
      assert IndexOfChar(xs[0], c).None?;
    } else {
      var s := Join(xs, [c]);
      assert s == xs[0] + [c] + Join(xs[1..], [c]);
      IndexOfCharAfter(xs[0], c, Join(xs[1..], [c]));
      assert s[..|xs[0]|] == xs[0];
      assert s[|xs[0]| + 1..] == Join(xs[1..], [c]);
      SplitJoin(xs[1..], c);
    }
  }

  /** No piece and no separator holds `c`, so the joined text does not either. */
  lemma {:induction false} JoinAvoids(xs: seq<string>, sep: string, c: char)
    requires c !in sep
    requires forall k :: 0 <= k < |xs| ==> c !in xs[k]
    ensures c !in Join(xs, sep)
  {
    if |xs| > 1 {
      JoinAvoids(xs[1..], sep, c);
    }
  }

  /** Joining two non-empty lists is joining each and putting the separator between. */
  lemma {:induction false} JoinAppend(a: seq<string>, b: seq<string>, sep: string)
    requires a != [] && b != []
    ensures Join(a + b, sep) == Join(a, sep) + sep + Join(b, sep)
  {
    assert (a + b)[0] == a[0] && (a + b)[1..] == a[1..] + b;
    if |a| > 1 {
      JoinAppend(a[1..], b, sep);
    }
  }

  /** Writing the pieces of the `j`-th element in its place does not change the joined text. */
  lemma JoinAt(xs: seq<string>, j: nat, pieces: seq<string>, sep: string)
    requires j < |xs| && pieces != []
    requires xs[j] == Join(pieces, sep)
    ensures Join(xs, sep) == Join(xs[..j] + pieces + xs[j + 1..], sep)
  {
    var pre, post := xs[..j], xs[j + 1..];
    assert xs == pre + [Join(pieces, sep)] + post;
    JoinFlatten(pre, pieces, post, sep);
  }

  /** A piece that is itself a joined list joins like the list's pieces written in its place. */
  lemma JoinFlatten(pre: seq<string>, pieces: seq<string>, post: seq<string>, sep: string)
    requires pieces != []
    ensures Join(pre + [Join(pieces, sep)] + post, sep) == Join(pre + pieces + post, sep)
  {
    var whole := Join(pieces, sep);
    if post == [] {
      assert [whole] + post == [whole] && pieces + post == pieces;
    } else {
      JoinAppend([whole], post, sep);
      JoinAppend(pieces, post, sep);
    }
    assert Join([whole] + post, sep) == Join(pieces + post, sep);
    assert pre + [whole] + post == pre + ([whole] + post);
    assert pre + pieces + post == pre + (pieces + post);
    if pre == [] {
      assert pre + ([whole] + post) == [whole] + post;
      assert pre + (pieces + post) == pieces + post;
    } else {
      JoinAppend(pre, [whole] + post, sep);
      JoinAppend(pre, pieces + post, sep);
    }
  }

  /** The decimal text of a natural number, as string interpolation writes it. */
  function NatToString(n: nat): (s: string)
    ensures s != [] && AllDigits(s)
  {
    if n < 10 then [DigitChar(n)] else NatToString(n / 10) + [DigitChar(n % 10)]
  }

  function DigitChar(d: nat): (c: char)
    requires d < 10
    ensures IsDigit(c) && DigitValue(c) == d
  {
    ('0' as int + d) as char
  }

  /** Reading back the decimal text of a number gives the number. */
  lemma {:induction false} NatToStringValue(n: nat)
    ensures DigitsValue(NatToString(n)) == n
  {
    if n >= 10 {
      NatToStringValue(n / 10);
      var s := NatToString(n);
      assert s[..|s| - 1] == NatToString(n / 10);
    }
  }

  /** Distinct numbers have distinct decimal texts. */
  lemma NatToStringInjective(a: nat, b: nat)
    requires NatToString(a) == NatToString(b)
    ensures a == b
  {
    NatToStringValue(a);
    NatToStringValue(b);
  }

  /** `String(i)` for an integer: its decimal text, with a minus sign when negative. */
  function IntToString(i: int): (s: string)
    ensures s != [] && (s[0] == '-' <==> i < 0)
  {
    if i < 0 then "-" + NatToString(-i) else NatToString(i)
  }

  /** Comparing the texts of two integers compares the integers. */
  lemma IntToStringInjective(a: int, b: int)
    ensures IntToString(a) == IntToString(b) <==> a == b
  {
    if IntToString(a) == IntToString(b) {
      if a < 0 {
        assert IntToString(a)[1..] == NatToString(-a);
        assert IntToString(b)[1..] == NatToString(-b);
        NatToStringInjective(-a, -b);
      } else {
        NatToStringInjective(a, b);
      }
    }
  }
}
