/**
 * The pieces of Python's text handling the script relies on:
 * `str.strip(chars)`, `int(str)` and the substring test behind
 * pandas' `Series.str.contains` (the patterns used are plain text).
 */
module PyText {
  import opened Wrappers

  /** The characters `str.strip('\n')` removes. */
  const Newline: set<char> := {'\n'}

  /**
   * The characters Python's `int()` ignores at both ends of a string: the ASCII
   * whitespace tab, line feed, vertical tab, form feed, carriage return and
   * space, and every non-ASCII character `str.isspace` accepts (CPython turns
   * those into spaces before parsing). The ASCII separators U+001C..U+001F
   * pass `str.isspace` but are not ignored: `int()` rejects them.
   */
  const IntSpace: set<char> :=
    {'\t', '\n', '\U{000B}', '\U{000C}', '\r', ' ',
     '\U{0085}', '\U{00A0}', '\U{1680}', '\U{2000}', '\U{2001}', '\U{2002}', '\U{2003}', '\U{2004}',
     '\U{2005}', '\U{2006}', '\U{2007}', '\U{2008}', '\U{2009}', '\U{200A}', '\U{2028}', '\U{2029}',
     '\U{202F}', '\U{205F}', '\U{3000}'}

  predicate IsDigit(c: char) { '0' <= c <= '9' }

  function DigitOf(c: char): nat
    requires IsDigit(c)
  {
    c as int - '0' as int
  }

  function DigitChar(d: nat): (c: char)
    requires d < 10
    ensures IsDigit(c) && DigitOf(c) == d
  {
    (48 + d) as char
  }

  /** Drops the leading characters that are in `drop`. */
  function StripLeft(s: string, drop: set<char>): string
    decreases |s|
  {
    if s != [] && s[0] in drop then StripLeft(s[1..], drop) else s
  }

  /** Drops the trailing characters that are in `drop`. */
  function StripRight(s: string, drop: set<char>): string
    decreases |s|
  {
    if s != [] && s[|s| - 1] in drop then StripRight(s[..|s| - 1], drop) else s
  }

  /** `s.strip(chars)`: removes the characters of `chars` at both ends of `s`. */
  function Strip(s: string, drop: set<char>): string
  {
    StripLeft(StripRight(s, drop), drop)
  }

  /** StripLeft keeps a suffix, drops only characters of `drop`, and stops at a kept one. */
  lemma {:induction false} StripLeftSuffix(s: string, drop: set<char>)
    ensures var r := StripLeft(s, drop);
      |r| <= |s| && r == s[|s| - |r|..] &&
      (r != [] ==> r[0] !in drop) &&
      forall i :: 0 <= i < |s| - |r| ==> s[i] in drop
    decreases |s|
  {
    if s != [] && s[0] in drop {
      StripLeftSuffix(s[1..], drop);
    }
  }

  /** StripRight keeps a prefix, drops only characters of `drop`, and stops at a kept one. */
  lemma {:induction false} StripRightPrefix(s: string, drop: set<char>)
    ensures var r := StripRight(s, drop);
      |r| <= |s| && r == s[..|r|] &&
      (r != [] ==> r[|r| - 1] !in drop) &&
      forall i :: |r| <= i < |s| ==> s[i] in drop
    decreases |s|
  {
    if s != [] && s[|s| - 1] in drop {
      StripRightPrefix(s[..|s| - 1], drop);
    }
  }

  /** Everything a strip removes is in `drop`, and the kept part sits at `s[lo..lo + |r|]`. */
  lemma StripIsSlice(s: string, drop: set<char>) returns (lo: nat)
    ensures lo + |Strip(s, drop)| <= |s| && Strip(s, drop) == s[lo..lo + |Strip(s, drop)|]
    ensures forall i :: 0 <= i < lo ==> s[i] in drop
    ensures forall i :: lo + |Strip(s, drop)| <= i < |s| ==> s[i] in drop
  {
    var m := StripRight(s, drop);
    var r := StripLeft(m, drop);
    StripRightPrefix(s, drop);
    StripLeftSuffix(m, drop);
    lo := |m| - |r|;
    assert m == s[..|m|] && r == m[lo..];
    assert m[lo..] == s[lo..|m|];
    forall i | 0 <= i < lo ensures s[i] in drop {
      assert s[i] == m[i];
    }
  }

  lemma {:induction false} StripRightOfPadded(u: string, q: string, drop: set<char>)
    requires u == [] || u[|u| - 1] !in drop
    requires forall i :: 0 <= i < |q| ==> q[i] in drop
    ensures StripRight(u + q, drop) == u
    decreases |q|
  {
    if q != [] {
      var q' := q[..|q| - 1];
      assert (u + q)[..|u + q| - 1] == u + q';
      StripRightOfPadded(u, q', drop);
    } else {
      assert u + q == u;
    }
  }

  lemma {:induction false} StripLeftOfPadded(p: string, u: string, drop: set<char>)
    requires u == [] || u[0] !in drop
    requires forall i :: 0 <= i < |p| ==> p[i] in drop
    ensures StripLeft(p + u, drop) == u
    decreases |p|
  {
    if p != [] {
      assert (p + u)[1..] == p[1..] + u;
      StripLeftOfPadded(p[1..], u, drop);
    } else {
      assert p + u == u;
    }
  }

  /**
   * Strip is characterised by its result: padding a string whose ends are kept
   * with dropped characters on either side strips back to that string.
   */
  lemma StripPadded(p: string, m: string, q: string, drop: set<char>)
    requires forall i :: 0 <= i < |p| ==> p[i] in drop
    requires forall i :: 0 <= i < |q| ==> q[i] in drop
    requires m != [] ==> m[0] !in drop && m[|m| - 1] !in drop
    ensures Strip(p + m + q, drop) == m
  {
    if m == [] {
      assert p + m + q == [] + (p + q);
      StripRightOfPadded([], p + q, drop);
      assert StripRight(p + m + q, drop) == [];
    } else {
      assert p + m + q == (p + m) + q;
      StripRightOfPadded(p + m, q, drop);
      StripLeftOfPadded(p, m, drop);
    }
  }

  /** `s.strip('\n')`: how the script cleans every line it reads. */
  function StripNewlines(s: string): string
  {
    Strip(s, Newline)
  }

  /** A line written as `text + "\n"` reads back as `text` when `text` has no newline at either end. */
  lemma StripNewlinesOfLine(text: string)
    requires text != [] ==> text[0] != '\n' && text[|text| - 1] != '\n'
    ensures StripNewlines(text + "\n") == text
  {
    assert text + "\n" == [] + text + "\n";
    StripPadded([], text, "\n", Newline);
  }

  /**
   * The digit part Python's `int()` accepts: ASCII digits, where a single
   * underscore may stand between two digits.
   */
  predicate Grouped(s: string)
  {
    |s| > 0 && forall i :: 0 <= i < |s| ==> DigitOrSeparatorAt(s, i)
  }

  predicate DigitOrSeparatorAt(s: string, i: nat)
    requires i < |s|
  {
    IsDigit(s[i]) || (s[i] == '_' && 0 < i < |s| - 1 && IsDigit(s[i - 1]) && IsDigit(s[i + 1]))
  }

  /** The number a digit string denotes, underscores ignored. */
  function DigitsValue(s: string): nat
  {
    if s == [] then 0
    else if IsDigit(s[|s| - 1]) then 10 * DigitsValue(s[..|s| - 1]) + DigitOf(s[|s| - 1])
    else DigitsValue(s[..|s| - 1])
  }

  /** Reads grouped digits from the right; None where `int()` would raise. */
  function ParseDigits(s: string): Option<nat>
    decreases |s|
  {
    if s == [] || !IsDigit(s[|s| - 1]) then None
    else if |s| == 1 then Some(DigitOf(s[0]))
    else
      var init := if s[|s| - 2] == '_' then s[..|s| - 2] else s[..|s| - 1];
      match ParseDigits(init)
      case None => None
      case Some(v) => Some(10 * v + DigitOf(s[|s| - 1]))
  }

  lemma GroupedAppendDigit(init: string, c: char)
    requires IsDigit(c) && (init == [] || init[|init| - 1] != '_')
    ensures Grouped(init + [c]) <==> (init == [] || Grouped(init))
  {
    var s := init + [c];
    if Grouped(s) && init != [] {
      forall i | 0 <= i < |init| ensures DigitOrSeparatorAt(init, i) {
        assert DigitOrSeparatorAt(s, i);
      }
    }
    if init == [] || Grouped(init) {
      forall i | 0 <= i < |s| ensures DigitOrSeparatorAt(s, i) {
        if i < |init| {
          assert DigitOrSeparatorAt(init, i);
        }
      }
    }
  }

  lemma GroupedAppendSeparated(init: string, c: char)
    requires IsDigit(c)
    ensures Grouped(init + ['_', c]) <==> Grouped(init)
  {
    var s := init + ['_', c];
    if Grouped(s) {
      assert DigitOrSeparatorAt(s, |init|);
      forall i | 0 <= i < |init| ensures DigitOrSeparatorAt(init, i) {
        assert DigitOrSeparatorAt(s, i);
      }
    }
    if Grouped(init) {
      assert DigitOrSeparatorAt(init, |init| - 1);
      forall i | 0 <= i < |s| ensures DigitOrSeparatorAt(s, i) {
        if i < |init| {
          assert DigitOrSeparatorAt(init, i);
        }
      }
    }
  }

  /** What the right-to-left reader should return: the value of grouped digits, None otherwise. */
  predicate ReadsAsGrouped(s: string)
  {
    ParseDigits(s) == if Grouped(s) then Some(DigitsValue(s)) else None
  }

  lemma ParseDigitsSeparated(init: string, c: char)
    requires IsDigit(c) && ReadsAsGrouped(init)
    ensures ReadsAsGrouped(init + ['_', c])
  {
    var s := init + ['_', c];
    assert s[..|s| - 2] == init;
    assert s[..|s| - 1][..|s| - 2] == init;
    GroupedAppendSeparated(init, c);
  }

  lemma ParseDigitsAppended(front: string, c: char)
    requires IsDigit(c) && front != [] && front[|front| - 1] != '_' && ReadsAsGrouped(front)
    ensures ReadsAsGrouped(front + [c])
  {
    var s := front + [c];
    assert s[..|s| - 1] == front;
    GroupedAppendDigit(front, c);
  }

  /** The right-to-left reader accepts exactly the grouped digit strings, with their value. */
  lemma {:induction false} ParseDigitsSpec(s: string)
    ensures ParseDigits(s) == if Grouped(s) then Some(DigitsValue(s)) else None
    decreases |s|
  {
    if s == [] {
    } else if !IsDigit(s[|s| - 1]) {
      assert !DigitOrSeparatorAt(s, |s| - 1);
    } else if |s| == 1 {
      assert DigitOrSeparatorAt(s, 0);
      assert s[..0] == [];
    } else if s[|s| - 2] == '_' {
      var init := s[..|s| - 2];
      assert s == init + ['_', s[|s| - 1]];
      ParseDigitsSpec(init);
      ParseDigitsSeparated(init, s[|s| - 1]);
    } else {
      var front := s[..|s| - 1];
      assert s == front + [s[|s| - 1]];
      ParseDigitsSpec(front);
      ParseDigitsAppended(front, s[|s| - 1]);
    }
  }

  /**
   * Python's `int(s)` on a string: surrounding whitespace is ignored, one
   * optional sign, then grouped digits; anything else raises ValueError (None).
   */
  function ParseInt(s: string): Option<int>
  {
    var t := Strip(s, IntSpace);
    if |t| > 0 && (t[0] == '+' || t[0] == '-') then
      match ParseDigits(t[1..])
      case None => None
      case Some(v) => Some(if t[0] == '-' then -(v as int) else v)
    else
      match ParseDigits(t)
      case None => None
      case Some(v) => Some(v)
  }

  /** `int(line.strip('\n'))`: how a count line of a log is read. */
  function ParseCount(line: string): Option<int>
  {
    ParseInt(StripNewlines(line))
  }

  /** Decimal rendering of a natural number, as samtools writes a count. */
  function ShowNat(n: nat): (r: string)
    ensures |r| > 0 && forall i :: 0 <= i < |r| ==> IsDigit(r[i])
  {
    if n < 10 then [DigitChar(n)] else ShowNat(n / 10) + [DigitChar(n % 10)]
  }

  function Show(n: int): string
  {
    if n < 0 then "-" + ShowNat(-n) else ShowNat(n)
  }

  lemma {:induction false} DigitsValueOfShowNat(n: nat)
    ensures DigitsValue(ShowNat(n)) == n
  {
    var s := ShowNat(n);
    if n >= 10 {
      assert s[..|s| - 1] == ShowNat(n / 10);
      DigitsValueOfShowNat(n / 10);
    }
  }

  lemma SignAndDigitsAreNotSpace(c: char)
    requires IsDigit(c) || c == '-' || c == '+'
    ensures c !in IntSpace
  {
  }

  /** A rendered integer has no whitespace to strip. */
  lemma StripSpaceOfShow(n: int)
    ensures Strip(Show(n), IntSpace) == Show(n)
  {
    var s := Show(n);
    SignAndDigitsAreNotSpace(s[0]);
    SignAndDigitsAreNotSpace(s[|s| - 1]);
    assert s == [] + s + [];
    StripPadded([], s, [], IntSpace);
  }

  /** Reading back a rendered integer gives that integer: `int(str(n)) == n`. */
  lemma ParseIntOfShow(n: int)
    ensures ParseInt(Show(n)) == Some(n)
  {
    var s := Show(n);
    StripSpaceOfShow(n);
    if n < 0 {
      var d := ShowNat(-n);
      assert s[1..] == d;
      assert Grouped(d);
      ParseDigitsSpec(d);
      DigitsValueOfShowNat(-n);
    } else {
      assert Grouped(s);
      ParseDigitsSpec(s);
      DigitsValueOfShowNat(n);
    }
  }

  /** A count line `str(n) + "\n"` is read back as `n`. */
  lemma ParseCountOfLine(n: int)
    ensures ParseCount(Show(n) + "\n") == Some(n)
  {
    var s := Show(n);
    assert s[0] == '-' || IsDigit(s[0]);
    StripNewlinesOfLine(s);
    ParseIntOfShow(n);
  }

  /** A string holding a character that is no digit and no underscore is not grouped digits. */
  lemma NotGrouped(t: string, j: nat)
    requires j < |t| && !IsDigit(t[j]) && t[j] != '_'
    ensures !Grouped(t)
  {
    assert !DigitOrSeparatorAt(t, j);
  }

  /**
   * A line holding a character that is neither one `int()` ignores, a digit,
   * a sign nor an underscore is not an integer: `int()` raises.
   */
  lemma ParseIntRejects(s: string, k: nat)
    requires k < |s|
    requires s[k] !in IntSpace && !IsDigit(s[k]) && s[k] != '+' && s[k] != '-' && s[k] != '_'
    ensures ParseInt(s) == None
  {
    var t := Strip(s, IntSpace);
    var lo := StripIsSlice(s, IntSpace);
    assert lo <= k < lo + |t|;
    assert t[k - lo] == s[k];
    NotGrouped(t, k - lo);
    ParseDigitsSpec(t);
    if |t| > 0 && (t[0] == '+' || t[0] == '-') {
      assert t[1..][k - lo - 1] == s[k];
      NotGrouped(t[1..], k - lo - 1);
      ParseDigitsSpec(t[1..]);
    }
  }

  /** The ASCII separators U+001C..U+001F are not stripped by `int()`: a count behind one raises. */
  lemma ParseIntRejectsSeparator(c: char, n: nat)
    requires '\U{001C}' <= c <= '\U{001F}'
    ensures ParseInt([c] + ShowNat(n)) == None
  {
    ParseIntRejects([c] + ShowNat(n), 0);
  }

  /** Python's `sub in s`. */
  predicate Contains(s: string, sub: string)
    decreases |s|
  {
    (|sub| <= |s| && s[..|sub|] == sub) || (|s| > 0 && Contains(s[1..], sub))
  }

  predicate OccursAt(s: string, sub: string, i: int)
  {
    0 <= i <= |s| - |sub| && s[i..i + |sub|] == sub
  }

  /** `sub in s` holds exactly when `sub` occurs at some position of `s`. */
  lemma {:induction false} ContainsAt(s: string, sub: string)
    ensures Contains(s, sub) <==> exists i :: OccursAt(s, sub, i)
    decreases |s|
  {
    if |sub| <= |s| && s[..|sub|] == sub {
      assert OccursAt(s, sub, 0);
    }
    if exists i :: OccursAt(s, sub, i) {
      var i :| OccursAt(s, sub, i);
      if i == 0 {
        assert s[..|sub|] == sub;
      } else {
        assert s[1..][i - 1..i - 1 + |sub|] == s[i..i + |sub|];
        assert OccursAt(s[1..], sub, i - 1);
        ContainsAt(s[1..], sub);
      }
    }
    if |s| > 0 && Contains(s[1..], sub) {
      ContainsAt(s[1..], sub);
      var i :| OccursAt(s[1..], sub, i);
      assert s[i + 1..i + 1 + |sub|] == s[1..][i..i + |sub|];
      assert OccursAt(s, sub, i + 1);
    }
  }
}
