/**
 * The JavaScript built-ins the controllers lean on, stated over Dafny values:
 * `parseInt` (radix omitted), `Array.prototype.slice`, `String.prototype.toLowerCase`,
 * the `!!` truthiness coercion and `Array.prototype.filter`.
 */
module Js {

  datatype Option<+T> = None | Some(value: T)

  datatype Result<+T, +E> = Ok(value: T) | Err(error: E)

  /** A JSON value as it can arrive in a request body (numbers kept exact). */
  datatype JsValue = Undefined | Null | Bool(b: bool) | Num(n: real) | Str(s: string) | Object

  /** JavaScript's ToBoolean: `!!v`. */
  predicate Truthy(v: JsValue)
  {
    match v
    case Undefined => false
    case Null => false
    case Bool(b) => b
    case Num(n) => n != 0.0
    case Str(s) => s != ""
    case Object => true
  }

  /** `!s` for an optional string field: absent, null or empty. */
  predicate Blank(s: Option<string>)
  {
    s.None? || s.value == ""
  }

  // ---------------------------------------------------------------------------
  // filter
  // ---------------------------------------------------------------------------

  /** `xs.filter(p)`: the elements satisfying `p`, in their original order. */
  function Filter<T>(xs: seq<T>, p: T -> bool): (r: seq<T>)
    ensures |r| <= |xs|
    ensures forall i :: 0 <= i < |r| ==> r[i] in xs && p(r[i])
    ensures forall i :: 0 <= i < |xs| && p(xs[i]) ==> xs[i] in r
  {
    if |xs| == 0 then []
    else (if p(xs[0]) then [xs[0]] else []) + Filter(xs[1..], p)
  }

  /** Filtering distributes over concatenation: appending to a store appends to every view of it. */
  lemma {:induction false} FilterAppend<T>(a: seq<T>, b: seq<T>, p: T -> bool)
    ensures Filter(a + b, p) == Filter(a, p) + Filter(b, p)
    decreases |a|
  {
    if |a| == 0 {
      assert a + b == b;
    } else {
      assert (a + b)[1..] == a[1..] + b;
      FilterAppend(a[1..], b, p);
    }
  }

  /** A one-element list keeps its element exactly when the predicate holds. */
  lemma FilterSingle<T>(x: T, p: T -> bool)
    ensures Filter([x], p) == if p(x) then [x] else []
  {
    assert [x][1..] == [];
  }

  /** Filtering an already filtered sequence by the same predicate changes nothing. */
  lemma {:induction false} FilterIdempotent<T>(xs: seq<T>, p: T -> bool)
    ensures Filter(Filter(xs, p), p) == Filter(xs, p)
    decreases |xs|
  {
    if |xs| > 0 {
      FilterIdempotent(xs[1..], p);
      var head := if p(xs[0]) then [xs[0]] else [];
      FilterAppend(head, Filter(xs[1..], p), p);
    }
  }

  /** A filter keeps everything exactly when every element satisfies the predicate. */
  lemma {:induction false} FilterAll<T>(xs: seq<T>, p: T -> bool)
    requires forall i :: 0 <= i < |xs| ==> p(xs[i])
    ensures Filter(xs, p) == xs
    decreases |xs|
  {
    if |xs| > 0 {
      FilterAll(xs[1..], p);
    }
  }

  /** A filter keeps nothing when no element satisfies the predicate. */
  lemma {:induction false} FilterNone<T>(xs: seq<T>, p: T -> bool)
    requires forall i :: 0 <= i < |xs| ==> !p(xs[i])
    ensures Filter(xs, p) == []
    decreases |xs|
  {
    if |xs| > 0 {
      FilterNone(xs[1..], p);
    }
  }

  /** If `p` implies `q`, filtering by `p` after `q` is filtering by `p`. */
  lemma {:induction false} FilterNarrow<T>(xs: seq<T>, p: T -> bool, q: T -> bool)
    requires forall i :: 0 <= i < |xs| && p(xs[i]) ==> q(xs[i])
    ensures Filter(Filter(xs, q), p) == Filter(xs, p)
    decreases |xs|
  {
    if |xs| > 0 {
      FilterNarrow(xs[1..], p, q);
      var head := if q(xs[0]) then [xs[0]] else [];
      FilterAppend(head, Filter(xs[1..], q), p);
    }
  }

  /** Overwriting one element changes a filter's length only by what that element contributes. */
  lemma FilterUpdateCount<T>(xs: seq<T>, k: nat, y: T, p: T -> bool)
    requires k < |xs|
    ensures |Filter(xs[k := y], p)| + (if p(xs[k]) then 1 else 0)
            == |Filter(xs, p)| + (if p(y) then 1 else 0)
  {
    var ys := xs[k := y];
    assert xs == xs[..k] + [xs[k]] + xs[k + 1..];
    assert ys == xs[..k] + [y] + xs[k + 1..];
    FilterAppend(xs[..k] + [xs[k]], xs[k + 1..], p);
    FilterAppend(xs[..k], [xs[k]], p);
    FilterAppend(xs[..k] + [y], xs[k + 1..], p);
    FilterAppend(xs[..k], [y], p);
  }

  // ---------------------------------------------------------------------------
  // slice
  // ---------------------------------------------------------------------------

  /** How `slice` turns a relative index into a position in 0..len. */
  function ClampIndex(k: int, len: nat): (r: nat)
    ensures r <= len
    ensures 0 <= k ==> r == if k < len then k else len
    ensures k < 0 ==> r == if len + k > 0 then len + k else 0
  {
    if k < 0 then (if len + k > 0 then len + k else 0)
    else if k < len then k else len
  }

  /** `xs.slice(start, end)`: negative bounds count from the end; an empty range gives []. */
  function Slice<T>(xs: seq<T>, start: int, end: int): (r: seq<T>)
    ensures 0 <= start <= end <= |xs| ==> r == xs[start..end]
    ensures 0 <= end <= start || end <= start < 0 || end <= -|xs| || start >= |xs| ==> r == []
    ensures var a := ClampIndex(start, |xs|); var b := ClampIndex(end, |xs|);
            |r| == if a < b then b - a else 0
    ensures var a := ClampIndex(start, |xs|); a + |r| <= |xs| && r == xs[a..a + |r|]
  {
    var a := ClampIndex(start, |xs|);
    var b := ClampIndex(end, |xs|);
    if a < b then xs[a..b] else []
  }

  /** A negative bound counts back from the end: it means the same as `length + bound`,
      or 0 when that is still negative. */
  lemma SliceCountsFromEnd<T>(xs: seq<T>, start: int, end: int)
    ensures start < 0 ==> Slice(xs, start, end) == Slice(xs, if |xs| + start > 0 then |xs| + start else 0, end)
    ensures end < 0 ==> Slice(xs, start, end) == Slice(xs, start, if |xs| + end > 0 then |xs| + end else 0)
  {
  }

  // ---------------------------------------------------------------------------
  // toLowerCase
  // ---------------------------------------------------------------------------

  function LowerChar(c: char): char
  {
    if 'A' <= c <= 'Z' then (c as int + 32) as char else c
  }

  /** `s.toLowerCase()`, restricted to the ASCII letters. */
  function ToLower(s: string): (r: string)
    ensures |r| == |s|
    ensures forall i :: 0 <= i < |s| && 'A' <= s[i] <= 'Z' ==> r[i] as int == s[i] as int + 32
    ensures forall i :: 0 <= i < |s| && !('A' <= s[i] <= 'Z') ==> r[i] == s[i]
  {
    seq(|s|, i requires 0 <= i < |s| => LowerChar(s[i]))
  }

  /** `a.toLowerCase() === b.toLowerCase()`. */
  predicate EqualsIgnoreCase(a: string, b: string)
  {
    ToLower(a) == ToLower(b)
  }

  /** Lower-casing twice is lower-casing once, and leaves no upper-case ASCII letter behind. */
  lemma ToLowerIdempotent(s: string)
    ensures ToLower(ToLower(s)) == ToLower(s)
    ensures forall i :: 0 <= i < |s| ==> !('A' <= ToLower(s)[i] <= 'Z')
  {
  }

  /** Case-insensitive equality is an equivalence, relates strings that differ only in case,
      and separates strings of different length. */
  lemma EqualsIgnoreCaseIsEquivalence(a: string, b: string, c: string)
    ensures EqualsIgnoreCase(a, a)
    ensures EqualsIgnoreCase(a, b) ==> EqualsIgnoreCase(b, a)
    ensures EqualsIgnoreCase(a, b) && EqualsIgnoreCase(b, c) ==> EqualsIgnoreCase(a, c)
    ensures EqualsIgnoreCase(a, ToLower(a))
    ensures |a| != |b| ==> !EqualsIgnoreCase(a, b)
  {
    ToLowerIdempotent(a);
  }

  // ---------------------------------------------------------------------------
  // parseInt
  // ---------------------------------------------------------------------------

  /** The white space `parseInt` skips: ASCII blanks, NBSP, BOM and the line separators. */
  predicate IsSpace(c: char)
  {
    c == ' ' || c == '\t' || c == '\n' || c == '\r' || c == '\U{000B}' || c == '\U{000C}'
    || c == '\U{00A0}' || c == '\U{FEFF}' || c == '\U{2028}' || c == '\U{2029}'
  }

  function TrimStart(s: string): (r: string)
    ensures |r| <= |s| && r == s[|s| - |r|..]
    ensures |r| > 0 ==> !IsSpace(r[0])
    ensures forall i :: 0 <= i < |s| - |r| ==> IsSpace(s[i])
  {
    if |s| > 0 && IsSpace(s[0]) then TrimStart(s[1..]) else s
  }

  /** The value of `c` as a digit in base `radix` (10 or 16), if it is one. */
  function DigitValue(c: char, radix: nat): Option<nat>
  {
    var d: int :=
      if '0' <= c <= '9' then c as int - '0' as int
      else if 'a' <= c <= 'z' then c as int - 'a' as int + 10
      else if 'A' <= c <= 'Z' then c as int - 'A' as int + 10
      else radix;
    if 0 <= d < radix then Some(d) else None
  }

  /** Length of the longest prefix of `s` made of base-`radix` digits. */
  function DigitRun(s: string, radix: nat): (n: nat)
    ensures n <= |s|
    ensures forall i :: 0 <= i < n ==> DigitValue(s[i], radix).Some?
    ensures n < |s| ==> DigitValue(s[n], radix).None?
  {
    if |s| > 0 && DigitValue(s[0], radix).Some? then 1 + DigitRun(s[1..], radix) else 0
  }

  /** The number spelt by a run of digits, most significant first. */
  function DigitsValue(s: string, radix: nat): nat
  {
    if |s| == 0 then 0
    else
      var last := DigitValue(s[|s| - 1], radix);
      DigitsValue(s[..|s| - 1], radix) * radix + (if last.Some? then last.value else 0)
  }

  /** Digits of the magnitude once the sign is gone: a `0x`/`0X` prefix switches to base 16. */
  function ParseMagnitude(s: string): Option<nat>
  {
    var hex := |s| >= 2 && s[0] == '0' && (s[1] == 'x' || s[1] == 'X');
    var radix: nat := if hex then 16 else 10;
    MagnitudeIn(if hex then s[2..] else s, radix)
  }

  /** A magnitude always starts with a decimal digit: `0x` starts with `0`, and otherwise
      the first decimal digit opens the run. */
  lemma MagnitudeStartsWithDigit(s: string)
    ensures ParseMagnitude(s).Some? ==> |s| > 0 && '0' <= s[0] <= '9'
  {
    var hex := |s| >= 2 && s[0] == '0' && (s[1] == 'x' || s[1] == 'X');
    if ParseMagnitude(s).Some? && !hex {
      assert DigitRun(s, 10) > 0;
      assert DigitValue(s[0], 10).Some?;
    }
  }

  /** The sign step of `parseInt`, applied to text whose leading white space is gone. */
  function ParseSigned(t: string): (r: Option<int>)
    ensures r.Some? && r.value < 0 ==> |t| > 0 && t[0] == '-'
  {
    var neg := |t| > 0 && t[0] == '-';
    var rest := if |t| > 0 && (t[0] == '-' || t[0] == '+') then t[1..] else t;
    match ParseMagnitude(rest)
    case None => None
    case Some(m) => Some(Signed(neg, m))
  }

  /** `parseInt(s)`; `None` stands for `NaN`. A missing query value is parsed as `"undefined"`,
      which is `NaN` as well, so callers pass `None` for it. */
  function ParseInt(s: string): (r: Option<int>)
    ensures r.Some? && r.value < 0 ==> |TrimStart(s)| > 0 && TrimStart(s)[0] == '-'
  {
    ParseSigned(TrimStart(s))
  }

  predicate IsDecimalDigit(c: char)
  {
    '0' <= c <= '9'
  }

  predicate IsHexDigit(c: char)
  {
    IsDecimalDigit(c) || 'a' <= c <= 'f' || 'A' <= c <= 'F'
  }

  /** The digits of base `radix` (10 or 16). */
  predicate IsDigitOf(c: char, radix: nat)
  {
    if radix == 16 then IsHexDigit(c) else IsDecimalDigit(c)
  }

  /** The weight of one decimal or hexadecimal digit, either case. */
  function HexDigit(c: char): nat
  {
    if '0' <= c <= '9' then c as int - '0' as int
    else if 'a' <= c <= 'f' then c as int - 'a' as int + 10
    else if 'A' <= c <= 'F' then c as int - 'A' as int + 10
    else 0
  }

  /** The number a run of digits spells, read left to right: each digit multiplies what was
      read before it by the radix and adds its own weight (Horner's rule). */
  function Horner(acc: nat, d: string, radix: nat): nat
    decreases |d|
  {
    if |d| == 0 then acc else Horner(acc * radix + HexDigit(d[0]), d[1..], radix)
  }

  /** `parseInt` on a decimal numeral: past white space and an optional sign, it reads the
      digits up to the first non-digit and ignores the rest. */
  lemma ParseIntDecimal(ws: string, sign: string, d: string, tail: string)
    requires forall i :: 0 <= i < |ws| ==> IsSpace(ws[i])
    requires sign == "" || sign == "+" || sign == "-"
    requires |d| > 0 && forall i :: 0 <= i < |d| ==> IsDecimalDigit(d[i])
    requires |tail| == 0 || !IsDecimalDigit(tail[0])
    requires !(d == "0" && |tail| > 0 && (tail[0] == 'x' || tail[0] == 'X'))
    ensures ParseInt(ws + sign + d + tail)
              == Some(Signed(sign == "-", Horner(0, d, 10)))
  {
    var rest := d + tail;
    DecimalMagnitudeOf(d, tail);
    assert rest[0] == d[0];
    Regroup(ws, sign, d, tail);
    SignThenMagnitude(ws + sign + d + tail, ws, sign, rest);
  }

  /** `parseInt` on a hexadecimal numeral: `0x` or `0X` switches to base 16, and the
      hexadecimal digits up to the first other character are read. */
  lemma ParseIntHex(ws: string, sign: string, x: char, h: string, tail: string)
    requires forall i :: 0 <= i < |ws| ==> IsSpace(ws[i])
    requires sign == "" || sign == "+" || sign == "-"
    requires x == 'x' || x == 'X'
    requires |h| > 0 && forall i :: 0 <= i < |h| ==> IsHexDigit(h[i])
    requires |tail| == 0 || !IsHexDigit(tail[0])
    ensures ParseInt(ws + sign + ['0', x] + h + tail)
              == Some(Signed(sign == "-", Horner(0, h, 16)))
  {
    var rest := ['0', x] + (h + tail);
    HexDigitsMagnitude(x, h, tail);
    Regroup5(ws, sign, ['0', x], h, tail);
    SignThenMagnitude(ws + sign + ['0', x] + h + tail, ws, sign, rest);
  }

  /** `0x` with no hexadecimal digit after it is `NaN`, even though `0` is a digit. */
  lemma ParseIntHexNeedsDigit(ws: string, sign: string, x: char, tail: string)
    requires forall i :: 0 <= i < |ws| ==> IsSpace(ws[i])
    requires sign == "" || sign == "+" || sign == "-"
    requires x == 'x' || x == 'X'
    requires |tail| == 0 || !IsHexDigit(tail[0])
    ensures ParseInt(ws + sign + ['0', x] + tail) == None
  {
    var rest := ['0', x] + tail;
    HexMagnitudeOf(x, tail);
    assert DigitRun(tail, 16) == 0 by {
      if |tail| > 0 {
        DigitValueTable(tail[0], 16);
      }
    }
    Regroup(ws, sign, ['0', x], tail);
    SignThenMagnitude(ws + sign + ['0', x] + tail, ws, sign, rest);
  }

  /** A worked reading: white space and a sign are skipped and trailing text is ignored. */
  lemma ParseIntDecimalExample()
    ensures ParseInt(" -42px") == Some(-42)
  {
    ParseIntDecimal(" ", "-", "42", "px");
    DecimalExampleParts();
  }

  lemma DecimalExampleParts()
    ensures " " + "-" + "42" + "px" == " -42px"
    ensures Horner(0, "42", 10) == 42
  {
    assert " " + "-" == " -";
    assert " -" + "42" == " -42";
  }

  /** A worked reading: `0x` switches to base 16. */
  lemma ParseIntHexExample()
    ensures ParseInt("+0x1F") == Some(31)
  {
    ParseIntHex("", "+", 'x', "1F", "");
    HexExampleText();
    HexExampleValue();
  }

  lemma HexExampleText()
    ensures "" + "+" + ['0', 'x'] + "1F" + "" == "+0x1F"
  {
    assert "" + "+" == "+";
    assert "+" + ['0', 'x'] == "+0x";
  }

  lemma HexExampleValue()
    ensures Horner(0, "1F", 16) == 31
  {
    assert "1F"[1..] == "F";
    assert "F"[1..] == "";
  }

  /** Digits not introduced by `0x` are read in base 10. */
  lemma DecimalMagnitudeOf(d: string, tail: string)
    requires |d| > 0 && forall i :: 0 <= i < |d| ==> IsDecimalDigit(d[i])
    requires |tail| == 0 || !IsDecimalDigit(tail[0])
    requires !(d == "0" && |tail| > 0 && (tail[0] == 'x' || tail[0] == 'X'))
    ensures ParseMagnitude(d + tail) == Some(Horner(0, d, 10))
  {
    var rest := d + tail;
    MagnitudeOfDigits(d, tail, 10);
    assert !(|rest| >= 2 && rest[0] == '0' && (rest[1] == 'x' || rest[1] == 'X')) by {
      if |d| >= 2 {
        assert rest[1] == d[1];
      } else if |rest| >= 2 {
        assert rest[1] == tail[0];
      }
    }
  }

  /** After `0x` the magnitude is the base-16 reading of what follows. */
  lemma HexMagnitudeOf(x: char, body: string)
    requires x == 'x' || x == 'X'
    ensures ParseMagnitude(['0', x] + body) == MagnitudeIn(body, 16)
  {
    assert (['0', x] + body)[2..] == body;
  }

  /** `0x` followed by hexadecimal digits and a non-digit. */
  lemma HexDigitsMagnitude(x: char, h: string, tail: string)
    requires x == 'x' || x == 'X'
    requires |h| > 0 && forall i :: 0 <= i < |h| ==> IsHexDigit(h[i])
    requires |tail| == 0 || !IsHexDigit(tail[0])
    ensures (['0', x] + (h + tail))[0] == '0'
    ensures ParseMagnitude(['0', x] + (h + tail)) == Some(Horner(0, h, 16))
  {
    HexMagnitudeOf(x, h + tail);
    MagnitudeOfDigits(h, tail, 16);
  }

  /** The value of the longest run of base-`radix` digits at the start of `body`, if any. */
  function MagnitudeIn(body: string, radix: nat): Option<nat>
  {
    var n := DigitRun(body, radix);
    if n == 0 then None else Some(DigitsValue(body[..n], radix))
  }

  lemma Regroup<T>(a: seq<T>, b: seq<T>, c: seq<T>, e: seq<T>)
    ensures a + b + c + e == a + (b + (c + e))
  {
  }

  lemma Regroup5<T>(a: seq<T>, b: seq<T>, c: seq<T>, d: seq<T>, e: seq<T>)
    ensures a + b + c + d + e == a + (b + (c + (d + e)))
  {
  }

  /** White space, then a sign, then a magnitude that starts with a digit: `parseInt` is
      the magnitude, negated after a minus sign. */
  lemma SignThenMagnitude(s: string, ws: string, sign: string, rest: string)
    requires s == ws + (sign + rest)
    requires forall i :: 0 <= i < |ws| ==> IsSpace(ws[i])
    requires sign == "" || sign == "+" || sign == "-"
    requires |rest| > 0 && IsDecimalDigit(rest[0])
    ensures ParseMagnitude(rest).None? ==> ParseInt(s) == None
    ensures ParseMagnitude(rest).Some? ==> ParseInt(s) == Some(Signed(sign == "-", ParseMagnitude(rest).value))
  {
    SkipSpaces(ws, sign + rest);
    SignStep(sign, rest);
  }

  /** A magnitude with its sign applied; `None` stays `None`. */
  function SignedMagnitude(neg: bool, m: Option<nat>): Option<int>
  {
    match m
    case None => None
    case Some(v) => Some(Signed(neg, v))
  }

  /** `v`, negated when `neg`. */
  function Signed(neg: bool, v: nat): int
  {
    if neg then -(v as int) else v
  }

  lemma SignStep(sign: string, rest: string)
    requires sign == "" || sign == "+" || sign == "-"
    requires |rest| > 0 && IsDecimalDigit(rest[0])
    ensures ParseSigned(sign + rest) == SignedMagnitude(sign == "-", ParseMagnitude(rest))
  {
    var t := sign + rest;
    if sign == "" {
      assert t == rest;
    } else {
      assert t[0] == sign[0] && t[1..] == rest;
    }
  }

  /** `TrimStart` removes exactly the given white space in front of text that does not
      start with white space. */
  lemma {:induction false} SkipSpaces(ws: string, t: string)
    requires forall i :: 0 <= i < |ws| ==> IsSpace(ws[i])
    requires |t| > 0 && !IsSpace(t[0])
    ensures TrimStart(ws + t) == t
    decreases |ws|
  {
    if |ws| > 0 {
      assert (ws + t)[0] == ws[0];
      assert (ws + t)[1..] == ws[1..] + t;
      SkipSpaces(ws[1..], t);
    } else {
      assert ws + t == t;
    }
  }

  /** Digits of the radix followed by a non-digit: the run is exactly those digits and its
      value is their left-to-right reading. */
  lemma MagnitudeOfDigits(d: string, tail: string, radix: nat)
    requires radix == 10 || radix == 16
    requires forall i :: 0 <= i < |d| ==> IsDigitOf(d[i], radix)
    requires |tail| == 0 || !IsDigitOf(tail[0], radix)
    ensures DigitRun(d + tail, radix) == |d|
    ensures (d + tail)[..|d|] == d
    ensures DigitsValue(d, radix) == Horner(0, d, radix)
  {
    DigitRunUpTo(d, tail, radix);
    DigitsValueIsHorner(d, radix);
  }

  /** `DigitValue` agrees with the digit tables for bases 10 and 16. */
  lemma DigitValueTable(c: char, radix: nat)
    requires radix == 10 || radix == 16
    ensures DigitValue(c, radix) == if IsDigitOf(c, radix) then Some(HexDigit(c)) else None
  {
  }

  lemma {:induction false} DigitRunUpTo(d: string, tail: string, radix: nat)
    requires radix == 10 || radix == 16
    requires forall i :: 0 <= i < |d| ==> IsDigitOf(d[i], radix)
    requires |tail| == 0 || !IsDigitOf(tail[0], radix)
    ensures DigitRun(d + tail, radix) == |d|
    decreases |d|
  {
    if |d| > 0 {
      assert (d + tail)[0] == d[0];
      assert (d + tail)[1..] == d[1..] + tail;
      DigitValueTable(d[0], radix);
      DigitRunUpTo(d[1..], tail, radix);
    } else {
      assert d + tail == tail;
      if |tail| > 0 {
        DigitValueTable(tail[0], radix);
      }
    }
  }

  /** Reading one more digit on the right multiplies by the radix and adds its weight. */
  lemma {:induction false} HornerSnoc(acc: nat, d: string, c: char, radix: nat)
    ensures Horner(acc, d + [c], radix) == Horner(acc, d, radix) * radix + HexDigit(c)
    decreases |d|
  {
    if |d| == 0 {
      assert d + [c] == [c];
    } else {
      assert (d + [c])[1..] == d[1..] + [c];
      HornerSnoc(acc * radix + HexDigit(d[0]), d[1..], c, radix);
    }
  }

  /** The right-to-left `DigitsValue` and the left-to-right `Horner` agree on digit runs. */
  lemma {:induction false} DigitsValueIsHorner(d: string, radix: nat)
    requires radix == 10 || radix == 16
    requires forall i :: 0 <= i < |d| ==> IsDigitOf(d[i], radix)
    ensures DigitsValue(d, radix) == Horner(0, d, radix)
    decreases |d|
  {
    if |d| > 0 {
      var init := d[..|d| - 1];
      DigitsValueIsHorner(init, radix);
      DigitValueTable(d[|d| - 1], radix);
      HornerSnoc(0, init, d[|d| - 1], radix);
      assert init + [d[|d| - 1]] == d;
    }
  }

  /** `parseInt` is `NaN` on text without a decimal digit. */
  lemma ParseIntNeedsDigit(s: string)
    ensures ParseInt(s).Some? ==> exists i :: 0 <= i < |s| && '0' <= s[i] <= '9'
  {
    var t := TrimStart(s);
    var rest := if |t| > 0 && (t[0] == '-' || t[0] == '+') then t[1..] else t;
    MagnitudeStartsWithDigit(rest);
    if ParseInt(s).Some? {
      var k := |s| - |t| + |t| - |rest|;
      assert s[k] == rest[0];
    }
  }

  /** `String(n)` for an integer: decimal digits, a leading `-` when negative. */
  function DecimalDigits(n: nat): (r: string)
    ensures |r| > 0
    ensures forall i :: 0 <= i < |r| ==> '0' <= r[i] <= '9'
  {
    if n < 10 then ['0' + n as char]
    else DecimalDigits(n / 10) + ['0' + (n % 10) as char]
  }

  function ToDecimalString(n: int): string
  {
    if n < 0 then "-" + DecimalDigits(-n) else DecimalDigits(n)
  }

  lemma {:induction false} DecimalDigitsValue(n: nat)
    ensures DigitRun(DecimalDigits(n), 10) == |DecimalDigits(n)|
    ensures DigitsValue(DecimalDigits(n), 10) == n
    decreases n
  {
    var d := DecimalDigits(n);
    if n >= 10 {
      DecimalDigitsValue(n / 10);
      assert d[..|d| - 1] == DecimalDigits(n / 10);
    }
    DigitRunAll(d, 10);
  }

  lemma {:induction false} DigitRunAll(s: string, radix: nat)
    requires forall i :: 0 <= i < |s| ==> DigitValue(s[i], radix).Some?
    ensures DigitRun(s, radix) == |s|
    decreases |s|
  {
    if |s| > 0 {
      DigitRunAll(s[1..], radix);
    }
  }

  /** A run of decimal digits parses to the number it spells. */
  lemma DecimalMagnitude(n: nat)
    ensures ParseMagnitude(DecimalDigits(n)) == Some(n)
  {
    var d := DecimalDigits(n);
    DecimalDigitsValue(n);
    var hex := |d| >= 2 && d[0] == '0' && (d[1] == 'x' || d[1] == 'X');
    assert !hex by {
      if |d| >= 2 {
        assert '0' <= d[1] <= '9';
      }
    }
    assert d[..|d|] == d;
  }

  /** `parseInt` of a magnitude that starts with a digit. */
  lemma ParseIntUnsigned(d: string, m: nat)
    requires |d| > 0 && '0' <= d[0] <= '9'
    requires ParseMagnitude(d) == Some(m)
    ensures ParseInt(d) == Some(m)
  {
    assert d == "" + ("" + d);
    SignThenMagnitude(d, "", "", d);
  }

  /** `parseInt` of a minus sign followed by such a magnitude. */
  lemma ParseIntNegative(s: string, d: string, m: nat)
    requires s == "-" + d
    requires |d| > 0 && '0' <= d[0] <= '9'
    requires ParseMagnitude(d) == Some(m)
    ensures ParseInt(s) == Some(-(m as int))
  {
    MinusThenMagnitude(s, d, m);
  }

  lemma MinusThenMagnitude(s: string, d: string, m: nat)
    requires s == "-" + d
    requires |d| > 0 && '0' <= d[0] <= '9'
    requires ParseMagnitude(d) == Some(m)
    ensures ParseInt(s) == Some(Signed(true, m))
  {
    assert s == "" + ("-" + d);
    SignThenMagnitude(s, "", "-", d);
  }

  /** `parseInt(String(n)) === n`: an id printed into a URL is parsed back to itself. */
  lemma ParseIntDecimalRoundTrip(n: int)
    ensures ParseInt(ToDecimalString(n)) == Some(n)
  {
    if n < 0 {
      NegativeRoundTrip(n);
    } else {
      NonNegativeRoundTrip(n);
    }
  }

  lemma NegativeRoundTrip(n: int)
    requires n < 0
    ensures ParseInt(ToDecimalString(n)) == Some(n)
  {
    NegativeSpelling(n);
    MinusDigits(n);
  }

  /** A minus sign before the decimal digits of `-n` parses to `n`. */
  lemma MinusDigits(n: int)
    requires n < 0
    ensures ParseInt("-" + DecimalDigits(-n)) == Some(n)
  {
    DecimalMagnitude(-n);
    ParseIntNegative("-" + DecimalDigits(-n), DecimalDigits(-n), -n);
  }

  lemma NegativeSpelling(n: int)
    requires n < 0
    ensures ToDecimalString(n) == "-" + DecimalDigits(-n)
  {
  }

  lemma NonNegativeRoundTrip(n: nat)
    ensures ParseInt(ToDecimalString(n)) == Some(n)
  {
    var d := DecimalDigits(n);
    DecimalMagnitude(n);
    ParseIntUnsigned(d, n);
    assert ToDecimalString(n) == d;
  }
}
