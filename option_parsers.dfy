/**
  The configuration-string parsers of hmeg/model/utils.py:

  - str_tuple splits a string on every comma (Python's `s.split(",")`);
  - int_tuple splits the same way and parses each piece with Python's
    `int()` in base 10, raising ValueError on the first piece that is not
    an integer literal;
  - bool_flag accepts exactly "1" and "0".

  A raised ValueError is an `Err` of a `Result`.
 */
module OptionParsers {
  import opened Wrappers

  const Comma: char := ','

  /** The ValueError a parser raises, with what it reports. */
  datatype ParseError =
    | InvalidIntLiteral(piece: string)   // int() refused this piece (malformed, or over the digit limit)
    | InvalidBoolFlag(message: string)   // bool_flag's own message

  // ---------------------------------------------------------------------
  // Splitting on commas (str_tuple)
  // ---------------------------------------------------------------------

  /** The number of commas in `s`. */
  function CommaCount(s: string): nat {
    if |s| == 0 then 0
    else (if s[0] == Comma then 1 else 0) + CommaCount(s[1..])
  }

  predicate CommaFree(p: string) {
    Comma !in p
  }

  /** Python's `",".join(parts)`. */
  function Join(parts: seq<string>): string
    decreases |parts|
  {
    if |parts| == 0 then ""
    else if |parts| == 1 then parts[0]
    else parts[0] + [Comma] + Join(parts[1..])
  }

  /**
    Python's `tuple(s.split(","))`: the maximal comma-free runs of `s`, in
    order. The empty string yields one empty piece, and so does every pair
    of adjacent commas and a comma at either end.
   */
  function StrTuple(s: string): (r: seq<string>)
    ensures |r| == CommaCount(s) + 1
    ensures forall i :: 0 <= i < |r| ==> CommaFree(r[i])
    ensures Join(r) == s
  {
    if |s| == 0 then [""]
    else
      var rest := StrTuple(s[1..]);
      if s[0] == Comma then
        [""] + rest
      else
        var r := [[s[0]] + rest[0]] + rest[1..];
        assert r[1..] == rest[1..];
        r
  }

  /** Splitting after a comma-free prefix extends the first piece only. */
  lemma {:induction false} StrTuplePrefix(p: string, t: string)
    requires CommaFree(p)
    ensures StrTuple(p + t) == [p + StrTuple(t)[0]] + StrTuple(t)[1..]
  {
    if |p| > 0 {
      assert (p + t)[0] == p[0];
      assert (p + t)[1..] == p[1..] + t;
      StrTuplePrefix(p[1..], t);
      assert [p[0]] + (p[1..] + StrTuple(t)[0]) == p + StrTuple(t)[0];
    } else {
      assert p + t == t;
      assert "" + StrTuple(t)[0] == StrTuple(t)[0];
    }
  }

  lemma StrTupleAfterComma(t: string)
    ensures StrTuple([Comma] + t) == [""] + StrTuple(t)
  {
    assert ([Comma] + t)[1..] == t;
  }

  /** Splitting inverts joining: comma-free pieces come back exactly. */
  lemma {:induction false} StrTupleJoin(parts: seq<string>)
    requires |parts| > 0
    requires forall i :: 0 <= i < |parts| ==> CommaFree(parts[i])
    ensures StrTuple(Join(parts)) == parts
    decreases |parts|
  {
    if |parts| == 1 {
      StrTuplePrefix(parts[0], "");
      assert parts[0] + "" == parts[0];
    } else {
      var rest := Join(parts[1..]);
      StrTupleJoin(parts[1..]);
      assert parts[0] + [Comma] + rest == parts[0] + ([Comma] + rest);
      StrTuplePrefix(parts[0], [Comma] + rest);
      StrTupleAfterComma(rest);
      assert parts[0] + "" == parts[0];
    }
  }

  // ---------------------------------------------------------------------
  // Python's int() in base 10
  // ---------------------------------------------------------------------

  /** The ASCII characters int() skips around a literal. */
  predicate IsSpace(c: char) {
    c == ' ' || c == '\t' || c == '\n' || c == '\r' || c == '\U{0B}' || c == '\U{0C}'
  }

  predicate IsDigit(c: char) {
    '0' <= c <= '9'
  }

  function DigitValue(c: char): (d: nat)
    requires IsDigit(c)
    ensures d < 10
  {
    (c as int) - ('0' as int)
  }

  /** `s` without its leading whitespace. */
  function TrimStart(s: string): (r: string)
  {
    if |s| > 0 && IsSpace(s[0]) then TrimStart(s[1..]) else s
  }

  /** `s` without its trailing whitespace. */
  function TrimEnd(s: string): (r: string)
  {
    if |s| > 0 && IsSpace(s[|s| - 1]) then TrimEnd(s[..|s| - 1]) else s
  }

  /** TrimStart removes exactly the leading whitespace run. */
  lemma {:induction false} TrimStartSuffix(s: string)
    ensures |TrimStart(s)| <= |s| && TrimStart(s) == s[|s| - |TrimStart(s)|..]
    ensures |TrimStart(s)| > 0 ==> !IsSpace(TrimStart(s)[0])
    ensures forall i :: 0 <= i < |s| - |TrimStart(s)| ==> IsSpace(s[i])
  {
    if |s| > 0 && IsSpace(s[0]) {
      TrimStartSuffix(s[1..]);
      assert forall i :: 1 <= i < |s| ==> s[i] == s[1..][i - 1];
    }
  }

  /** TrimEnd removes exactly the trailing whitespace run. */
  lemma {:induction false} TrimEndPrefix(s: string)
    ensures |TrimEnd(s)| <= |s| && TrimEnd(s) == s[..|TrimEnd(s)|]
    ensures |TrimEnd(s)| > 0 ==> !IsSpace(TrimEnd(s)[|TrimEnd(s)| - 1])
    ensures forall i :: |TrimEnd(s)| <= i < |s| ==> IsSpace(s[i])
  {
    if |s| > 0 && IsSpace(s[|s| - 1]) {
      TrimEndPrefix(s[..|s| - 1]);
    }
  }

  /** Python's `s.strip()`, for the whitespace int() skips. */
  function Strip(s: string): string {
    TrimEnd(TrimStart(s))
  }

  predicate DigitsOrUnderscores(d: string) {
    forall i :: 0 <= i < |d| ==> IsDigit(d[i]) || d[i] == '_'
  }

  /**
    The digit part of a base-10 literal: decimal digits, where one
    underscore may stand between two digits.
   */
  predicate IsDigitGroup(d: string) {
    && |d| > 0 && IsDigit(d[0]) && IsDigit(d[|d| - 1])
    && DigitsOrUnderscores(d)
    && (forall i :: 0 <= i < |d| - 1 && d[i] == '_' ==> IsDigit(d[i + 1]))
  }

  /** The number the digits of `d` denote, most significant first; underscores are skipped. */
  function DigitsValue(d: string): nat
    requires DigitsOrUnderscores(d)
  {
    if |d| == 0 then 0
    else
      var init := d[..|d| - 1];
      assert DigitsOrUnderscores(init) by {
        forall i | 0 <= i < |init| ensures IsDigit(init[i]) || init[i] == '_' {
          assert init[i] == d[i];
        }
      }
      if d[|d| - 1] == '_' then DigitsValue(init)
      else 10 * DigitsValue(init) + DigitValue(d[|d| - 1])
  }

  /**
    CPython's default limit on the number of decimal digits that int()
    converts from a string and str() renders (`sys.get_int_max_str_digits()`).
   */
  const MaxStrDigits: nat := 4300

  /** The number of decimal digits in `d`; underscores do not count. */
  function DigitCount(d: string): nat {
    if |d| == 0 then 0
    else DigitCount(d[..|d| - 1]) + (if IsDigit(d[|d| - 1]) then 1 else 0)
  }

  /** The value of a digit group int() converts; `None` for a malformed one or one over the digit limit. */
  function ParseDigitGroup(d: string): Option<nat> {
    if IsDigitGroup(d) && DigitCount(d) <= MaxStrDigits then Some(DigitsValue(d)) else None
  }

  /**
    Python's `int(piece)`: surrounding whitespace, an optional sign, then a
    digit group of at most `MaxStrDigits` digits. `None` is the ValueError
    int() raises. A piece int() accepts holds a digit, so the empty piece is
    refused.
   */
  function ParseInt(piece: string): (r: Option<int>)
    ensures r.Some? ==> exists i :: 0 <= i < |piece| && IsDigit(piece[i])
  {
    var r := ParseLiteral(Strip(piece));
    assert r.Some? ==> exists i :: 0 <= i < |piece| && IsDigit(piece[i]) by {
      if r.Some? {
        var u := TrimStart(piece);
        var t := TrimEnd(u);
        TrimStartSuffix(piece);
        TrimEndPrefix(u);
        var k := |piece| - |u|;
        assert t == piece[k..k + |t|];
        if t[0] == '-' || t[0] == '+' {
          assert IsDigitGroup(t[1..]);
          assert t[1..][0] == t[1] == piece[k + 1];
        } else {
          assert IsDigitGroup(t);
          assert t[0] == piece[k];
        }
      }
    }
    r
  }

  /** An optional sign and a digit group, with nothing around them. */
  function ParseLiteral(t: string): Option<int> {
    if |t| > 0 && (t[0] == '-' || t[0] == '+') then
      match ParseDigitGroup(t[1..])
      case None => None
      case Some(v) => Some(if t[0] == '-' then -(v as int) else v as int)
    else
      match ParseDigitGroup(t)
      case None => None
      case Some(v) => Some(v as int)
  }

  /** Python's `str(n)` for a non-negative `n`: no sign, no leading zero. */
  function NatDigits(n: nat): (r: string)
    ensures |r| > 0
    ensures forall i :: 0 <= i < |r| ==> IsDigit(r[i])
    ensures |r| > 1 ==> r[0] != '0'
  {
    if n < 10 then [('0' as int + n) as char]
    else NatDigits(n / 10) + [('0' as int + n % 10) as char]
  }

  /**
    Python's `str(n)`: decimal digits with a leading '-' when negative.
    Python raises instead when `n` has more digits than `MaxStrDigits`;
    `Renderable` says it does not.
   */
  function Decimal(n: int): string {
    if n < 0 then "-" + NatDigits(-n) else NatDigits(n)
  }

  /** `str(n)` is within the digit limit, so Python renders it. */
  predicate Renderable(n: int) {
    |NatDigits(if n < 0 then -n else n)| <= MaxStrDigits
  }

  /** Every character of a rendering of a non-negative number is a digit that counts. */
  lemma {:induction false} NatDigitsCount(n: nat)
    ensures DigitCount(NatDigits(n)) == |NatDigits(n)|
    decreases n
  {
    var r := NatDigits(n);
    assert r[..|r| - 1] == if n < 10 then [] else NatDigits(n / 10);
    if n >= 10 {
      NatDigitsCount(n / 10);
    }
  }

  lemma {:induction false} NatDigitsValue(n: nat)
    ensures DigitsValue(NatDigits(n)) == n
    decreases n
  {
    var r := NatDigits(n);
    assert r[..|r| - 1] == if n < 10 then [] else NatDigits(n / 10);
    if n >= 10 {
      NatDigitsValue(n / 10);
    }
  }

  /** A decimal rendering has no whitespace at either end. */
  lemma StripDecimal(n: int)
    ensures Strip(Decimal(n)) == Decimal(n)
  {
    var s := Decimal(n);
    assert !IsSpace(s[0]);
    assert TrimStart(s) == s;
    assert !IsSpace(s[|s| - 1]) by {
      if n < 0 { assert s[|s| - 1] == NatDigits(-n)[|s| - 2]; }
    }
    assert TrimEnd(s) == s;
  }

  /** int() inverts str(): every integer Python renders parses back from its rendering. */
  lemma ParseIntDecimal(n: int)
    requires Renderable(n)
    ensures ParseInt(Decimal(n)) == Some(n)
  {
    StripDecimal(n);
    var s := Decimal(n);
    if n < 0 {
      assert s[1..] == NatDigits(-n);
      NatDigitsValue(-n);
      NatDigitsCount(-n);
    } else {
      NatDigitsValue(n);
      NatDigitsCount(n);
    }
  }

  /**
    int() converts a well-formed digit group exactly when it has at most
    `MaxStrDigits` digits: `int("1" * 4301)` raises.
   */
  lemma ParseIntDigitLimit(d: string)
    requires IsDigitGroup(d)
    ensures ParseInt(d).Some? <==> DigitCount(d) <= MaxStrDigits
  {
    assert TrimStart(d) == d;
    assert TrimEnd(d) == d;
  }

  // ---------------------------------------------------------------------
  // int_tuple
  // ---------------------------------------------------------------------

  /**
    `tuple(parse(i) for i in pieces)`: every piece parsed left to right; the
    first piece `parse` refuses raises, and the pieces after it are not
    looked at. int_tuple passes int(), that is `ParseInt`.
   */
  function ParseAll(pieces: seq<string>, parse: string -> Option<int>): (r: Result<seq<int>, ParseError>)
    ensures r.Ok? <==> forall i :: 0 <= i < |pieces| ==> parse(pieces[i]).Some?
    ensures r.Ok? ==> |r.value| == |pieces|
    ensures r.Ok? ==> forall i :: 0 <= i < |pieces| ==> parse(pieces[i]) == Some(r.value[i])
    ensures r.Err? ==>
      exists k :: 0 <= k < |pieces| && parse(pieces[k]).None? &&
        r.error == InvalidIntLiteral(pieces[k]) &&
        forall j :: 0 <= j < k ==> parse(pieces[j]).Some?
  {
    if |pieces| == 0 then Ok([])
    else
      match parse(pieces[0])
      case None => Err(InvalidIntLiteral(pieces[0]))
      case Some(v) =>
        var rest := ParseAll(pieces[1..], parse);
        if rest.Err? then
          var k :| 0 <= k < |pieces| - 1 && parse(pieces[1..][k]).None? &&
            rest.error == InvalidIntLiteral(pieces[1..][k]) &&
            forall j :: 0 <= j < k ==> parse(pieces[1..][j]).Some?;
          assert parse(pieces[k + 1]).None?;
          assert forall j :: 0 <= j < k + 1 ==> parse(pieces[j]).Some? by {
            forall j | 0 <= j < k + 1 ensures parse(pieces[j]).Some? {
              if j > 0 { assert pieces[j] == pieces[1..][j - 1]; }
            }
          }
          Err(rest.error)
        else
          var r := [v] + rest.value;
          assert forall i :: 0 <= i < |pieces| ==> parse(pieces[i]) == Some(r[i]) by {
            forall i | 0 <= i < |pieces| ensures parse(pieces[i]) == Some(r[i]) {
              if i > 0 { assert pieces[i] == pieces[1..][i - 1]; }
            }
          }
          Ok(r)
  }

  /**
    Python's `int_tuple(s)`: the comma-separated integers of `s`, one per
    piece of the split, or the error for the first piece that is not an
    integer literal.
   */
  function IntTuple(s: string): (r: Result<seq<int>, ParseError>)
    ensures r.Ok? ==> |r.value| == CommaCount(s) + 1
    ensures r.Ok? <==> forall i :: 0 <= i < |StrTuple(s)| ==> ParseInt(StrTuple(s)[i]).Some?
    ensures r.Ok? ==> forall i :: 0 <= i < |r.value| ==> ParseInt(StrTuple(s)[i]) == Some(r.value[i])
    ensures r.Err? ==>
      exists k :: 0 <= k < |StrTuple(s)| && ParseInt(StrTuple(s)[k]).None? &&
        r.error == InvalidIntLiteral(StrTuple(s)[k]) &&
        forall j :: 0 <= j < k ==> ParseInt(StrTuple(s)[j]).Some?
  {
    var pieces := StrTuple(s);
    var r := ParseAll(pieces, ParseInt);
    assert (forall i :: 0 <= i < |pieces| ==> ParseInt(pieces[i]).Some?) ==> r.Ok?;
    assert r.Ok? ==> forall i :: 0 <= i < |pieces| ==> ParseInt(pieces[i]).Some?;
    r
  }

  /** The decimal renderings of `t`, in order. */
  function Decimals(t: seq<int>): seq<string> {
    seq(|t|, i requires 0 <= i < |t| => Decimal(t[i]))
  }

  lemma DecimalCommaFree(n: int)
    ensures CommaFree(Decimal(n))
  {
    var s := Decimal(n);
    forall i | 0 <= i < |s| ensures s[i] != Comma {
      if n < 0 && i > 0 { assert s[i] == NatDigits(-n)[i - 1]; }
    }
  }

  /** Every rendering is a comma-free piece that parses back to its integer. */
  lemma DecimalsParse(t: seq<int>)
    requires forall i :: 0 <= i < |t| ==> Renderable(t[i])
    ensures forall i :: 0 <= i < |t| ==> CommaFree(Decimals(t)[i])
    ensures forall i :: 0 <= i < |t| ==> ParseInt(Decimals(t)[i]) == Some(t[i])
  {
    forall i | 0 <= i < |t| ensures CommaFree(Decimals(t)[i]) && ParseInt(Decimals(t)[i]) == Some(t[i]) {
      DecimalCommaFree(t[i]);
      ParseIntDecimal(t[i]);
    }
  }

  predicate AllSpace(w: string) {
    forall i :: 0 <= i < |w| ==> IsSpace(w[i])
  }

  /** TrimStart drops a whitespace run in front of text that starts with no whitespace. */
  lemma {:induction false} TrimStartSpaces(w: string, t: string)
    requires AllSpace(w)
    requires |t| > 0 && !IsSpace(t[0])
    ensures TrimStart(w + t) == t
    decreases |w|
  {
    if |w| == 0 {
      assert w + t == t;
    } else {
      assert (w + t)[1..] == w[1..] + t;
      assert AllSpace(w[1..]) by {
        forall i | 0 <= i < |w| - 1 ensures IsSpace(w[1..][i]) { assert w[1..][i] == w[i + 1]; }
      }
      TrimStartSpaces(w[1..], t);
    }
  }

  /** TrimEnd drops a whitespace run after text that ends with no whitespace. */
  lemma {:induction false} TrimEndSpaces(t: string, w: string)
    requires AllSpace(w)
    requires |t| > 0 && !IsSpace(t[|t| - 1])
    ensures TrimEnd(t + w) == t
    decreases |w|
  {
    if |w| == 0 {
      assert t + w == t;
    } else {
      var init := w[..|w| - 1];
      assert (t + w)[..|t + w| - 1] == t + init;
      assert AllSpace(init) by {
        forall i | 0 <= i < |init| ensures IsSpace(init[i]) { assert init[i] == w[i]; }
      }
      TrimEndSpaces(t, init);
    }
  }

  /**
    int() skips any run of ASCII whitespace before and after a literal: the
    piece parses as the literal between the two runs.
   */
  lemma ParseIntSkipsSpace(w1: string, t: string, w2: string)
    requires AllSpace(w1) && AllSpace(w2)
    requires |t| > 0 && !IsSpace(t[0]) && !IsSpace(t[|t| - 1])
    ensures ParseInt(w1 + t + w2) == ParseLiteral(t)
  {
    assert w1 + t + w2 == w1 + (t + w2);
    TrimStartSpaces(w1, t + w2);
    TrimEndSpaces(t, w2);
  }

  /** A literal with no whitespace at its ends is parsed as it stands. */
  lemma ParseIntBare(t: string)
    requires |t| > 0 && !IsSpace(t[0]) && !IsSpace(t[|t| - 1])
    ensures ParseInt(t) == ParseLiteral(t)
  {
    assert "" + t + "" == t;
    ParseIntSkipsSpace("", t, "");
  }

  /**
    int() reads a '+' in front of an unsigned literal as no sign at all,
    and a '-' as negation.
   */
  lemma ParseIntSign(d: string)
    requires |d| > 0 && IsDigit(d[0]) && !IsSpace(d[|d| - 1])
    ensures ParseInt("+" + d) == ParseInt(d)
    ensures ParseInt("-" + d) == match ParseInt(d) case None => None case Some(v) => Some(-v)
  {
    ParseIntBare(d);
    ParseIntBare("+" + d);
    ParseIntBare("-" + d);
    assert ("+" + d)[1..] == d && ("-" + d)[1..] == d;
  }

  lemma {:induction false} DigitsUnderscore(a: string, b: string)
    requires DigitsOrUnderscores(a) && DigitsOrUnderscores(b)
    ensures DigitsOrUnderscores(a + "_" + b) && DigitsOrUnderscores(a + b)
    ensures DigitsValue(a + "_" + b) == DigitsValue(a + b)
    ensures DigitCount(a + "_" + b) == DigitCount(a + b)
    decreases |b|
  {
    if |b| == 0 {
      assert a + "_" + b == a + "_" && (a + "_")[..|a|] == a;
      assert a + b == a;
    } else {
      var init := b[..|b| - 1];
      assert (a + "_" + b)[..|a + "_" + b| - 1] == a + "_" + init;
      assert (a + b)[..|a + b| - 1] == a + init;
      assert DigitsOrUnderscores(init) by {
        forall i | 0 <= i < |init| ensures IsDigit(init[i]) || init[i] == '_' { assert init[i] == b[i]; }
      }
      DigitsUnderscore(a, init);
    }
  }

  /** int() reads a single underscore between two digit groups as nothing. */
  lemma ParseIntUnderscore(a: string, b: string)
    requires IsDigitGroup(a) && IsDigitGroup(b)
    ensures ParseInt(a + "_" + b) == ParseInt(a + b)
  {
    DigitsUnderscore(a, b);
    var s, u := a + "_" + b, a + b;
    assert s[0] == a[0] && s[|s| - 1] == b[|b| - 1];
    assert u[0] == a[0] && u[|u| - 1] == b[|b| - 1];
    ParseIntBare(s);
    ParseIntBare(u);
    assert forall i :: 0 <= i < |s| - 1 && s[i] == '_' ==> IsDigit(s[i + 1]) by {
      forall i | 0 <= i < |s| - 1 ensures s[i] == '_' ==> IsDigit(s[i + 1]) {
        if i < |a| - 1 {
          assert s[i] == a[i] && s[i + 1] == a[i + 1];
        } else if i == |a| - 1 {
          assert s[i] == a[i];
        } else if i == |a| {
          assert s[i + 1] == b[0];
        } else {
          assert s[i] == b[i - |a| - 1] && s[i + 1] == b[i - |a|];
        }
      }
    }
    assert forall i :: 0 <= i < |u| - 1 && u[i] == '_' ==> IsDigit(u[i + 1]) by {
      forall i | 0 <= i < |u| - 1 ensures u[i] == '_' ==> IsDigit(u[i + 1]) {
        if i < |a| - 1 {
          assert u[i] == a[i] && u[i + 1] == a[i + 1];
        } else if i == |a| - 1 {
          assert u[i] == a[i];
        } else {
          assert u[i] == b[i - |a|] && u[i + 1] == b[i - |a| + 1];
        }
      }
    }
  }

  lemma {:induction false} DigitsLeadingZero(d: string)
    requires DigitsOrUnderscores(d)
    ensures DigitsOrUnderscores("0" + d)
    ensures DigitsValue("0" + d) == DigitsValue(d)
    ensures DigitCount("0" + d) == DigitCount(d) + 1
    decreases |d|
  {
    if |d| == 0 {
      assert "0" + d == "0" && "0"[..0] == "";
    } else {
      var init := d[..|d| - 1];
      assert ("0" + d)[..|d|] == "0" + init;
      assert DigitsOrUnderscores(init) by {
        forall i | 0 <= i < |init| ensures IsDigit(init[i]) || init[i] == '_' { assert init[i] == d[i]; }
      }
      DigitsLeadingZero(init);
    }
  }

  /** A zero in front of a digit group leaves a digit group. */
  lemma LeadingZeroGroup(d: string)
    requires IsDigitGroup(d)
    ensures IsDigitGroup("0" + d)
  {
    var s := "0" + d;
    assert s[|s| - 1] == d[|d| - 1];
    forall i | 0 <= i < |s| ensures IsDigit(s[i]) || s[i] == '_' {
      if i > 0 { assert s[i] == d[i - 1]; }
    }
    forall i | 0 <= i < |s| - 1 ensures s[i] == '_' ==> IsDigit(s[i + 1]) {
      if i > 0 { assert s[i] == d[i - 1] && s[i + 1] == d[i]; }
    }
  }

  /**
    int() ignores a leading zero, except that the zero counts towards the
    digit limit.
   */
  lemma ParseIntLeadingZero(d: string)
    requires IsDigitGroup(d)
    ensures ParseInt("0" + d) == if DigitCount(d) < MaxStrDigits then ParseInt(d) else None
  {
    var s := "0" + d;
    DigitsLeadingZero(d);
    LeadingZeroGroup(d);
    assert s[|s| - 1] == d[|d| - 1];
    ParseIntBare(s);
    ParseIntBare(d);
    assert ParseInt(s) == ParseLiteral(s);
  }

  /** Literals int() accepts: " -16\n" is -16, "+3_2" is 32 and "007" is 7. */
  lemma ParseIntAccepts()
    ensures ParseInt(" -16\n") == Some(-16)
    ensures ParseInt("+3_2") == Some(32)
    ensures ParseInt("007") == Some(7)
  {
    assert " -16\n"[1..] == "-16\n";
    assert TrimStart("-16\n") == "-16\n";
    assert "-16\n"[..3] == "-16";
    assert TrimEnd("-16") == "-16";
    assert Strip(" -16\n") == "-16";
    assert "-16"[1..] == "16" && "16"[..1] == "1" && "1"[..0] == "";
    assert DigitsValue("1") == 1;
    assert DigitsValue("16") == 16;
    assert IsDigitGroup("16");
    assert Strip("+3_2") == "+3_2";
    assert "+3_2"[1..] == "3_2" && "3_2"[..2] == "3_" && "3_"[..1] == "3" && "3"[..0] == "";
    assert DigitsValue("3") == 3;
    assert DigitsValue("3_") == 3;
    assert DigitsValue("3_2") == 32;
    assert IsDigitGroup("3_2");
    assert Strip("007") == "007";
    assert "007"[..2] == "00" && "00"[..1] == "0";
  }

  /** int() refuses a space after the sign, a doubled or trailing underscore, and the empty piece. */
  lemma ParseIntRefuses()
    ensures ParseInt("- 5") == None
    ensures ParseInt("3__2") == None
    ensures ParseInt("3_") == None
    ensures ParseInt("") == None
  {
    assert Strip("- 5") == "- 5";
    assert Strip("3__2") == "3__2" && "3__2"[1] == '_' && "3__2"[2] == '_';
    assert Strip("3_") == "3_";
  }

  /**
    int_tuple inverts rendering a non-empty tuple of integers as
    `",".join(map(str, t))`, for every tuple whose integers Python renders.
   */
  lemma IntTupleRoundTrip(t: seq<int>)
    requires |t| > 0
    requires forall i :: 0 <= i < |t| ==> Renderable(t[i])
    ensures IntTuple(Join(Decimals(t))) == Ok(t)
  {
    var parts := Decimals(t);
    DecimalsParse(t);
    StrTupleJoin(parts);
    var r := ParseAll(parts, ParseInt);
    assert r.Ok?;
    assert r.value == t;
  }

  /** The cases int_tuple refuses that a split produces: the empty string and an empty middle piece. */
  lemma IntTupleRejectsEmptyPieces()
    ensures IntTuple("") == Err(InvalidIntLiteral(""))
    ensures IntTuple("1,,2") == Err(InvalidIntLiteral(""))
  {
    assert StrTuple("")[0] == "";
    assert "1,,2"[1..] == [Comma] + ([Comma] + "2") && "1,,2"[0] == '1';
    StrTuplePrefix("2", "");
    assert "2" + "" == "2";
    assert StrTuple("2") == ["2"];
    StrTupleAfterComma("2");
    assert StrTuple([Comma] + "2") == ["", "2"];
    StrTupleAfterComma([Comma] + "2");
    assert StrTuple([Comma] + ([Comma] + "2")) == ["", "", "2"];
    assert ['1'] + "" == "1";
    assert StrTuple("1,,2") == ["1", "", "2"];
    assert ParseInt(StrTuple("")[0]).None?;
    assert ParseInt("1") == Some(1) by { ParseIntDecimal(1); }
  }

  // ---------------------------------------------------------------------
  // bool_flag
  // ---------------------------------------------------------------------

  /** How a flag is written in a configuration string. */
  function FlagText(b: bool): string {
    if b then "1" else "0"
  }

  /** The message of the ValueError bool_flag raises for `s`. */
  function BoolFlagMessage(s: string): string {
    "Invalid value \"" + s + "\" for bool flag (should be 0 or 1)"
  }

  /** Python's `bool_flag(s)`. */
  function BoolFlag(s: string): (r: Result<bool, ParseError>)
    ensures forall b :: r == Ok(b) <==> s == FlagText(b)
    ensures r.Err? <==> s != FlagText(true) && s != FlagText(false)
    ensures r.Err? ==> r.error == InvalidBoolFlag(BoolFlagMessage(s))
  {
    if s == "1" then Ok(true)
    else if s == "0" then Ok(false)
    else Err(InvalidBoolFlag(BoolFlagMessage(s)))
  }
}
