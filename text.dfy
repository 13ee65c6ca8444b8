/**
 * The few Python 2 string operations the daemon relies on, on `string`
 * (a sequence of characters): the slices `s[0:-1]` and `s[0:n]`,
 * `str.lower()`, `str.split(' ')` and base-10 `int(...)`; and `' '.join(...)`
 * and `str(n)`, which the daemon does not call, to state the round trips
 * of `split(' ')` and `int(...)`.
 */
module Text {
  import opened Wrappers

  /** Python's `s[0:-1]`: everything but the last character (empty stays empty). */
  function DropLast(s: string): (r: string)
    ensures |s| > 0 ==> s == r + [s[|s| - 1]]
    ensures |s| == 0 ==> r == []
  {
    if |s| == 0 then [] else s[..|s| - 1]
  }

  /** Python's `s[0:n]` for `n >= 0`: a prefix, shorter when `s` is. */
  function Prefix(s: string, n: nat): (r: string)
    ensures |r| == if |s| < n then |s| else n
    ensures r <= s
  {
    if |s| < n then s else s[..n]
  }

  /** `str.lower()` on one character of a Python 2 byte string: ASCII only. */
  function LowerChar(c: char): char
  {
    if 'A' <= c <= 'Z' then (c as int - 'A' as int + 'a' as int) as char else c
  }

  function Lower(s: string): (r: string)
    ensures |r| == |s|
  {
    if s == [] then [] else [LowerChar(s[0])] + Lower(s[1..])
  }

  lemma {:induction false} LowerAt(s: string, i: nat)
    requires i < |s|
    ensures Lower(s)[i] == LowerChar(s[i])
  {
    if i > 0 {
      LowerAt(s[1..], i - 1);
    }
  }

  lemma {:induction false} LowerKeepsSpaces(s: string)
    ensures (' ' in Lower(s)) <==> (' ' in s)
  {
    if s != [] {
      LowerKeepsSpaces(s[1..]);
      assert Lower(s) == [LowerChar(s[0])] + Lower(s[1..]);
      assert s == [s[0]] + s[1..];
    }
  }

  /** Lowering and dropping the last character commute. */
  lemma LowerDropLast(s: string)
    ensures Lower(DropLast(s)) == DropLast(Lower(s))
  {
    if |s| > 0 {
      var d := DropLast(s);
      forall i | 0 <= i < |d|
        ensures Lower(d)[i] == DropLast(Lower(s))[i]
      {
        LowerAt(d, i);
        LowerAt(s, i);
      }
    }
  }

  // ---------------------------------------------------------------
  // split(' ') and join
  // ---------------------------------------------------------------

  /** Number of occurrences of `c` in `s`. */
  function Count(s: string, c: char): nat
  {
    if s == [] then 0 else (if s[0] == c then 1 else 0) + Count(s[1..], c)
  }

  /**
   * Python's `s.split(' ')` with an explicit separator: every single space
   * separates two fields, so two spaces in a row give an empty field and an
   * empty string gives one empty field.
   */
  function Split(s: string): (r: seq<string>)
    ensures |r| == Count(s, ' ') + 1
    ensures forall i :: 0 <= i < |r| ==> ' ' !in r[i]
  {
    if s == [] then [[]]
    else
      var rest := Split(s[1..]);
      if s[0] == ' ' then [[]] + rest
      else [[s[0]] + rest[0]] + rest[1..]
  }

  /** Python's `' '.join(ts)`. */
  function Join(ts: seq<string>): string
  {
    if |ts| == 0 then []
    else if |ts| == 1 then ts[0]
    else ts[0] + " " + Join(ts[1..])
  }

  lemma CountZero(s: string, c: char)
    ensures Count(s, c) == 0 <==> c !in s
  {
    if s != [] {
      CountZero(s[1..], c);
      assert s == [s[0]] + s[1..];
    }
  }

  /** A string splits into one field exactly when it holds no space. */
  lemma SplitSingle(s: string)
    ensures |Split(s)| == 1 <==> ' ' !in s
    ensures ' ' !in s ==> Split(s) == [s]
  {
    CountZero(s, ' ');
    if ' ' !in s {
      SplitNoSpace(s);
    }
  }

  lemma {:induction false} SplitNoSpace(s: string)
    requires ' ' !in s
    ensures Split(s) == [s]
  {
    if s != [] {
      assert ' ' !in s[1..];
      SplitNoSpace(s[1..]);
      assert s[0] != ' ';
      assert s == [s[0]] + s[1..];
    }
  }

  /** Splitting `a + " " + b` peels off the space-free field `a`. */
  lemma {:induction false} SplitCons(a: string, b: string)
    requires ' ' !in a
    ensures Split(a + " " + b) == [a] + Split(b)
  {
    if a == [] {
      assert a + " " + b == [' '] + b;
      assert (a + " " + b)[1..] == b;
    } else {
      assert ' ' !in a[1..];
      SplitCons(a[1..], b);
      assert (a + " " + b)[0] == a[0] != ' ';
      assert (a + " " + b)[1..] == a[1..] + " " + b;
      assert a == [a[0]] + a[1..];
    }
  }

  /** Joining what `split(' ')` produced gives back the original string. */
  lemma {:induction false} JoinSplit(s: string)
    ensures Join(Split(s)) == s
  {
    if s != [] {
      JoinSplit(s[1..]);
      var rest := Split(s[1..]);
      if s[0] == ' ' {
        assert Join([[]] + rest) == [] + " " + Join(rest);
      } else {
        var r := [[s[0]] + rest[0]] + rest[1..];
        if |rest| == 1 {
          assert Join(r) == [s[0]] + rest[0];
        } else {
          assert rest == [rest[0]] + rest[1..];
          assert Join(rest) == rest[0] + " " + Join(rest[1..]);
          assert Join(r) == [s[0]] + rest[0] + " " + Join(rest[1..]);
        }
        assert s == [s[0]] + s[1..];
      }
    }
  }

  /** Splitting what `' '.join` produced from space-free fields gives the fields back. */
  lemma {:induction false} SplitJoin(ts: seq<string>)
    requires |ts| >= 1
    requires forall i :: 0 <= i < |ts| ==> ' ' !in ts[i]
    ensures Split(Join(ts)) == ts
  {
    if |ts| == 1 {
      SplitNoSpace(ts[0]);
    } else {
      SplitJoin(ts[1..]);
      SplitCons(ts[0], Join(ts[1..]));
      assert ts == [ts[0]] + ts[1..];
    }
  }

  // ---------------------------------------------------------------
  // int(token)
  // ---------------------------------------------------------------

  /** The characters Python 2's `int()` skips around a number. */
  predicate IsSpace(c: char)
  {
    c == ' ' || c == '\t' || c == '\n' || c == '\r' || c as int == 11 || c as int == 12
  }

  predicate IsDigit(c: char)
  {
    '0' <= c <= '9'
  }

  predicate AllDigits(s: string)
  {
    forall i :: 0 <= i < |s| ==> IsDigit(s[i])
  }

  function TrimLeft(s: string): string
  {
    if |s| > 0 && IsSpace(s[0]) then TrimLeft(s[1..]) else s
  }

  function TrimRight(s: string): string
  {
    if |s| > 0 && IsSpace(s[|s| - 1]) then TrimRight(s[..|s| - 1]) else s
  }

  function Strip(s: string): string
  {
    TrimRight(TrimLeft(s))
  }

  function DigitsValue(s: string): nat
    requires AllDigits(s)
  {
    if s == [] then 0
    else DigitsValue(s[..|s| - 1]) * 10 + (s[|s| - 1] as int - '0' as int)
  }

  /**
   * Python 2's `int(t)` in base 10: surrounding whitespace is stripped, then
   * the word is read by `ParseWord`; anything else is a `ValueError` (None).
   */
  function ParseInt(t: string): Option<int>
  {
    ParseWord(Strip(t))
  }

  /**
   * A stripped word: an optional sign, which may be followed by more
   * whitespace (the sign is taken off before the digits are parsed with
   * leading whitespace skipped), then the digits.
   */
  function ParseWord(u: string): Option<int>
  {
    if |u| > 0 && (u[0] == '+' || u[0] == '-') then
      match ParseDigits(TrimLeft(u[1..]))
      case Some(v) => Some(if u[0] == '-' then -v else v)
      case None => None
    else ParseDigits(u)
  }

  /** One or more ASCII digits, read in base 10. */
  function ParseDigits(d: string): Option<int>
  {
    if |d| > 0 && AllDigits(d) then Some(DigitsValue(d) as int) else None
  }

  function Digit(d: nat): char
    requires d < 10
  {
    ('0' as int + d) as char
  }

  /** Python's `str(n)` for a natural number. */
  function ShowNat(n: nat): (r: string)
    ensures |r| > 0 && AllDigits(r)
  {
    if n < 10 then [Digit(n)] else ShowNat(n / 10) + [Digit(n % 10)]
  }

  /** Python's `str(n)`. */
  function Show(n: int): string
  {
    if n < 0 then "-" + ShowNat(-n) else ShowNat(n)
  }

  lemma {:induction false} DigitsShowNat(n: nat)
    ensures DigitsValue(ShowNat(n)) == n
  {
    if n >= 10 {
      DigitsShowNat(n / 10);
      var s := ShowNat(n / 10) + [Digit(n % 10)];
      assert s[..|s| - 1] == ShowNat(n / 10);
    }
  }

  /** `int(str(n)) == n`: the printed form of every integer parses back to it. */
  lemma ParseShow(n: int)
    ensures ParseInt(Show(n)) == Some(n)
  {
    var s := Show(n);
    var m: nat := if n < 0 then -n else n;
    DigitsShowNat(m);
    assert !IsSpace(s[0]);
    assert TrimLeft(s) == s;
    assert !IsSpace(s[|s| - 1]);
    assert Strip(s) == s;
    if n < 0 {
      assert s[1..] == ShowNat(m);
      assert TrimLeft(s[1..]) == s[1..];
    }
  }

  lemma {:induction false} TrimLeftKeeps(s: string, c: char)
    requires c in s && !IsSpace(c)
    ensures c in TrimLeft(s)
  {
    if |s| > 0 && IsSpace(s[0]) {
      assert c in s[1..];
      TrimLeftKeeps(s[1..], c);
    }
  }

  lemma {:induction false} TrimRightKeeps(s: string, c: char)
    requires c in s && !IsSpace(c)
    ensures c in TrimRight(s)
  {
    if |s| > 0 && IsSpace(s[|s| - 1]) {
      assert s == s[..|s| - 1] + [s[|s| - 1]];
      assert c in s[..|s| - 1];
      TrimRightKeeps(s[..|s| - 1], c);
    }
  }

  /** A token holding anything but digits, signs and whitespace is not an integer. */
  lemma ParseIntRejects(t: string, c: char)
    requires c in t && !IsDigit(c) && !IsSpace(c) && c != '+' && c != '-'
    ensures ParseInt(t) == None
  {
    TrimLeftKeeps(t, c);
    TrimRightKeeps(TrimLeft(t), c);
    var u := Strip(t);
    var i :| 0 <= i < |u| && u[i] == c;
    if |u| > 0 && (u[0] == '+' || u[0] == '-') {
      assert u[1..][i - 1] == c;
      TrimLeftKeeps(u[1..], c);
    }
  }

  predicate AllSpace(s: string)
  {
    forall i :: 0 <= i < |s| ==> IsSpace(s[i])
  }

  lemma {:induction false} TrimLeftSpaces(lead: string, x: string)
    requires AllSpace(lead) && (x == [] || !IsSpace(x[0]))
    ensures TrimLeft(lead + x) == x
  {
    if lead == [] {
      assert lead + x == x;
    } else {
      assert (lead + x)[1..] == lead[1..] + x;
      TrimLeftSpaces(lead[1..], x);
    }
  }

  lemma {:induction false} TrimRightSpaces(x: string, trail: string)
    requires AllSpace(trail) && (x == [] || !IsSpace(x[|x| - 1]))
    ensures TrimRight(x + trail) == x
  {
    if trail == [] {
      assert x + trail == x;
    } else {
      var n := |trail|;
      assert (x + trail)[..|x + trail| - 1] == x + trail[..n - 1];
      TrimRightSpaces(x, trail[..n - 1]);
    }
  }

  /** Whitespace around a word that neither starts nor ends with whitespace is stripped off. */
  lemma StripAround(lead: string, body: string, trail: string)
    requires AllSpace(lead) && AllSpace(trail)
    requires |body| > 0 && !IsSpace(body[0]) && !IsSpace(body[|body| - 1])
    ensures Strip(lead + body + trail) == body
  {
    assert lead + body + trail == lead + (body + trail);
    assert (body + trail)[0] == body[0];
    TrimLeftSpaces(lead, body + trail);
    TrimRightSpaces(body, trail);
  }

  /** Digits with whitespace around them read as their value. */
  lemma AcceptsUnsigned(lead: string, digits: string, trail: string)
    requires AllSpace(lead) && AllSpace(trail) && |digits| > 0 && AllDigits(digits)
    ensures ParseInt(lead + digits + trail) == Some(DigitsValue(digits) as int)
  {
    assert IsDigit(digits[0]) && IsDigit(digits[|digits| - 1]);
    StripAround(lead, digits, trail);
  }

  /** A word made of a sign and, once leading whitespace is skipped, digits reads as the signed value. */
  lemma SignedWord(u: string, digits: string)
    requires |u| > 0 && (u[0] == '+' || u[0] == '-')
    requires TrimLeft(u[1..]) == digits && |digits| > 0 && AllDigits(digits)
    ensures var v: int := DigitsValue(digits);
      ParseWord(u) == Some(if u[0] == '-' then -v else v)
  {
    assert ParseDigits(digits) == Some(DigitsValue(digits) as int);
  }

  lemma Regroup(a: string, b: string, c: string, d: string, e: string)
    ensures a + b + c + d + e == a + (b + c + d) + e
  {
  }

  /** A sign, whitespace and digits neither start nor end with whitespace, and the digits follow the sign. */
  lemma SignedBody(c: char, gap: string, digits: string)
    requires c == '+' || c == '-'
    requires AllSpace(gap) && |digits| > 0 && AllDigits(digits)
    ensures var body := [c] + gap + digits;
      !IsSpace(body[0]) && !IsSpace(body[|body| - 1]) && TrimLeft(body[1..]) == digits
  {
    var body := [c] + gap + digits;
    assert IsDigit(digits[0]) && IsDigit(digits[|digits| - 1]);
    assert body[|body| - 1] == digits[|digits| - 1];
    assert body[1..] == gap + digits;
    TrimLeftSpaces(gap, digits);
  }

  /** A sign, whitespace and digits, with whitespace around them, read as the signed value. */
  lemma AcceptsSigned(lead: string, c: char, gap: string, digits: string, trail: string)
    requires c == '+' || c == '-'
    requires AllSpace(lead) && AllSpace(gap) && AllSpace(trail)
    requires |digits| > 0 && AllDigits(digits)
    ensures var v: int := DigitsValue(digits);
      ParseInt(lead + [c] + gap + digits + trail) == Some(if c == '-' then -v else v)
  {
    var body := [c] + gap + digits;
    Regroup(lead, [c], gap, digits, trail);
    SignedBody(c, gap, digits);
    StripAround(lead, body, trail);
    SignedWord(body, digits);
  }

  /**
   * The shape of a word `int()` accepts, cut into its parts: whitespace,
   * an optional sign, whitespace (only after a sign), one or more digits,
   * whitespace.
   */
  predicate IntShape(lead: string, sign: string, gap: string, digits: string, trail: string)
  {
    AllSpace(lead) && AllSpace(gap) && AllSpace(trail) &&
    (sign == "" || sign == "+" || sign == "-") &&
    (sign == "" ==> gap == "") &&
    |digits| > 0 && AllDigits(digits)
  }

  /** The value a word of that shape stands for: its digits, negated after `-`. */
  function ShapeValue(sign: string, digits: string): int
    requires AllDigits(digits)
  {
    var v: int := DigitsValue(digits);
    if sign == "-" then -v else v
  }

  /**
   * What `int()` accepts: digits, optionally behind a sign, with whitespace
   * around them and, after a sign, between the sign and the digits; the
   * value is that of the digits, negated after `-`.
   */
  lemma ParseIntAccepts(lead: string, sign: string, gap: string, digits: string, trail: string)
    requires IntShape(lead, sign, gap, digits, trail)
    ensures ParseInt(lead + sign + gap + digits + trail) == Some(ShapeValue(sign, digits))
  {
    if sign == "" {
      assert lead + sign + gap + digits + trail == lead + digits + trail;
      AcceptsUnsigned(lead, digits, trail);
    } else {
      var c := sign[0];
      assert sign == [c];
      AcceptsSigned(lead, c, gap, digits, trail);
      assert c == '-' <==> sign == "-";
    }
  }

  /** `TrimLeft` drops whitespace and keeps the rest. */
  lemma {:induction false} TrimLeftDrops(s: string)
    ensures var r := TrimLeft(s);
      |r| <= |s| && s == s[..|s| - |r|] + r && AllSpace(s[..|s| - |r|])
  {
    if |s| > 0 && IsSpace(s[0]) {
      TrimLeftDrops(s[1..]);
      var r := TrimLeft(s[1..]);
      var k := |s| - |r|;
      assert s[1..] == s[1..][..k - 1] + r;
      assert s[1..][..k - 1] == s[1..k];
      assert s[..k] == [s[0]] + s[1..k];
    } else {
      assert s[..0] == [];
    }
  }

  /** `TrimRight` drops whitespace and keeps the rest. */
  lemma {:induction false} TrimRightDrops(s: string)
    ensures var r := TrimRight(s);
      |r| <= |s| && s == r + s[|r|..] && AllSpace(s[|r|..])
  {
    if |s| > 0 && IsSpace(s[|s| - 1]) {
      var p := s[..|s| - 1];
      TrimRightDrops(p);
      var r := TrimRight(p);
      assert p == r + p[|r|..];
      assert s == p + [s[|s| - 1]];
      assert s[|r|..] == p[|r|..] + [s[|s| - 1]];
    } else {
      assert s[|s|..] == [];
    }
  }

  /** What `ParseDigits` accepts: one or more digits, read as their value. */
  lemma ParseDigitsOnly(d: string, x: int)
    requires ParseDigits(d) == Some(x)
    ensures |d| > 0 && AllDigits(d) && x == DigitsValue(d) as int
  {
  }

  /** A signed word `ParseWord` reads is its sign, whitespace and digits. */
  lemma SignedWordOnly(u: string, v: int)
    requires |u| > 0 && (u[0] == '+' || u[0] == '-') && ParseWord(u) == Some(v)
    ensures exists sign, gap, digits ::
      IntShape("", sign, gap, digits, "") && u == sign + gap + digits && v == ShapeValue(sign, digits)
  {
    var rest := u[1..];
    var d := TrimLeft(rest);
    var x :| ParseDigits(d) == Some(x) && v == (if u[0] == '-' then -x else x);
    ParseDigitsOnly(d, x);
    TrimLeftDrops(rest);
    var gap := rest[..|rest| - |d|];
    var sign := [u[0]];
    assert u == sign + rest;
    assert u == sign + gap + d;
    assert sign == "-" <==> u[0] == '-';
    assert AllSpace("");
    assert IntShape("", sign, gap, d, "");
  }

  /** Every stripped word `ParseWord` reads is a sign, whitespace and digits. */
  lemma ParseWordOnly(u: string, v: int)
    requires ParseWord(u) == Some(v)
    ensures exists sign, gap, digits ::
      IntShape("", sign, gap, digits, "") && u == sign + gap + digits && v == ShapeValue(sign, digits)
  {
    if |u| > 0 && (u[0] == '+' || u[0] == '-') {
      SignedWordOnly(u, v);
    } else {
      ParseDigitsOnly(u, v);
      assert u == "" + "" + u;
      assert AllSpace("");
      assert IntShape("", "", "", u, "");
    }
  }

  /**
   * The converse of `ParseIntAccepts`: every word `int()` accepts has that
   * shape, and its value is the one the shape stands for.
   */
  lemma ParseIntOnly(t: string, v: int)
    requires ParseInt(t) == Some(v)
    ensures exists lead, sign, gap, digits, trail ::
      IntShape(lead, sign, gap, digits, trail) &&
      t == lead + sign + gap + digits + trail && v == ShapeValue(sign, digits)
  {
    var w := TrimLeft(t);
    TrimLeftDrops(t);
    var lead := t[..|t| - |w|];
    var u := TrimRight(w);
    TrimRightDrops(w);
    var trail := w[|u|..];
    assert t == lead + u + trail;
    ParseWordOnly(u, v);
    var sign, gap, digits :| IntShape("", sign, gap, digits, "") && u == sign + gap + digits && v == ShapeValue(sign, digits);
    Regroup(lead, sign, gap, digits, trail);
    assert IntShape(lead, sign, gap, digits, trail);
  }

  /** The sign may be separated from the digits: `int('+\t7') == 7`. */
  lemma SignThenTab()
    ensures ParseInt("+\t7") == Some(7)
  {
    ParseIntAccepts("", "+", "\t", "7", "");
    assert "" + "+" + "\t" + "7" + "" == "+\t7";
  }

  /** Signs out of place are not integers: a sign alone, two signs, a sign between digits. */
  lemma MisplacedSigns()
    ensures ParseInt("-") == None && ParseInt("+-1") == None && ParseInt("1-2") == None
  {
    assert Strip("-") == "-" && TrimLeft("-"[1..]) == "";
    assert Strip("+-1") == "+-1" && TrimLeft("+-1"[1..]) == "-1" && !IsDigit("-1"[0]);
    assert Strip("1-2") == "1-2" && !IsDigit("1-2"[1]);
  }
}
